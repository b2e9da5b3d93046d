/**
  The ingestion service of service/youtube_service.go: the package state
  (the key list, the active key index, the client bound to the active key,
  the video collection) as one object, and the operations that change it.

  The YouTube client is represented by the key it is bound to; the search
  call is a scripted sequence of responses, one per call.
 */
module YouTubeService {
  import opened Wrappers
  import opened VideoModel
  import opened ApiKeys
  import opened Normalizer
  import opened Store

  /** `MaxResults(20)` of the search call. */
  const MaxResults: nat := 20

  /** The HTTP status of a search error that means the key's quota is spent. */
  const QuotaExceeded: int := 403

  /** One search request: the key the client was bound to, the query and the result cap. */
  datatype SearchCall = SearchCall(apiKey: string, query: string, maxResults: nat)

  /** What one search call answers. */
  datatype SearchOutcome =
    | Found(items: seq<SearchResult>)
    | ApiError(code: int)        // a `*googleapi.Error` with its HTTP status
    | TransportError             // any other error

  /** Why one fetch-and-store cycle fails. */
  datatype FetchError =
    | SearchFailed(outcome: SearchOutcome)   // a search error other than 403
    | TimeParseFailed(publishedAt: string)   // the first timestamp that is not RFC 3339
    | StoreFailed(at: nat)                   // the upsert of the record at this position

  predicate IsQuotaError(o: SearchOutcome)
  {
    o.ApiError? && o.code == QuotaExceeded
  }

  /** The number of 403 answers before the first other answer. */
  function QuotaErrors(responses: seq<SearchOutcome>): nat
  {
    if responses != [] && IsQuotaError(responses[0]) then 1 + QuotaErrors(responses[1..]) else 0
  }

  /** How many records of a batch are written before the injected write failure, if any. */
  function Written(writeFault: Option<nat>, n: nat): nat
  {
    if writeFault.Some? && writeFault.value < n then writeFault.value else n
  }

  /** The number of documents a page skips. */
  function Skip(page: int, pageSize: int): (s: int)
    ensures page >= 1 && pageSize >= 0 ==> s >= 0
    ensures page == 1 ==> s == 0
    ensures page >= 1 && pageSize >= 1 ==> s >= page - 1
  {
    (page - 1) * pageSize
  }

  class Service {
    var apiKeys: seq<string>
    var apiKeyIndex: nat
    /** The key the YouTube client is currently bound to. */
    var activeKey: string
    var collection: Collection

    ghost predicate Valid()
      reads this
    {
      |apiKeys| >= 2 && apiKeyIndex < |apiKeys| && activeKey == apiKeys[apiKeyIndex]
    }

    /** `init`: the validated key list, the client bound to the first key, the existing collection. */
    constructor (keys: seq<string>, stored: Collection)
      requires |keys| >= 2
      ensures Valid()
      ensures apiKeys == keys && apiKeyIndex == 0 && activeKey == keys[0] && collection == stored
    {
      apiKeys := keys;
      apiKeyIndex := 0;
      activeKey := keys[0];
      collection := stored;
    }

    /** `switchAPIKey`: advance to the next key, wrapping around, and rebind the client. */
    method SwitchAPIKey()
      requires Valid()
      modifies this
      ensures Valid()
      ensures apiKeys == old(apiKeys) && collection == old(collection)
      ensures apiKeyIndex == (old(apiKeyIndex) + 1) % |apiKeys|
      ensures apiKeyIndex == Advance(old(apiKeyIndex), |apiKeys|, 1)
      ensures activeKey == apiKeys[apiKeyIndex]
    {
      apiKeyIndex := (apiKeyIndex + 1) % |apiKeys|;
      activeKey := apiKeys[apiKeyIndex];
    }

    /**
      `storeVideosInMongoDB`: upsert the records one at a time; the write
      at position `writeFault` (when there is one) fails and ends the batch.
     */
    method StoreVideos(videos: seq<Video>, writeFault: Option<nat>) returns (err: Option<FetchError>)
      modifies this`collection
      ensures collection == UpsertAll(old(collection), videos[..Written(writeFault, |videos|)])
      ensures err.Some? <==> Written(writeFault, |videos|) < |videos|
      ensures err.Some? ==> err == Some(StoreFailed(writeFault.value))
    {
      var i := 0;
      while i < |videos|
        invariant 0 <= i <= |videos|
        invariant collection == UpsertAll(old(collection), videos[..i])
        invariant writeFault.Some? ==> writeFault.value >= i
      {
        if writeFault == Some(i) {
          return Some(StoreFailed(i));
        }
        var video := videos[i];
        assert videos[..i + 1][..i] == videos[..i];
        collection := collection[video.id := FieldsOf(video)];
        i := i + 1;
      }
      assert videos[..|videos|] == videos;
      return None;
    }

    /**
      `performFetchAndStore`: search with the active key; on a 403 switch
      to the next key and retry the same query; on any other search error
      give up; otherwise normalise every result (the first bad timestamp
      ends the cycle before anything is written) and upsert the batch.
     */
    method PerformFetchAndStore(
      query: string,
      responses: seq<SearchOutcome>,
      parse: string -> Option<Instant>,
      format: Instant -> string,
      writeFault: Option<nat>)
      returns (err: Option<FetchError>, calls: seq<SearchCall>)
      requires Valid()
      requires QuotaErrors(responses) < |responses|
      modifies this
      decreases |responses|
      ensures Valid() && apiKeys == old(apiKeys)
      ensures |calls| == QuotaErrors(responses) + 1
      ensures forall j :: 0 <= j < |calls| ==>
        calls[j] == SearchCall(apiKeys[Advance(old(apiKeyIndex), |apiKeys|, j)], query, MaxResults)
      ensures apiKeyIndex == Advance(old(apiKeyIndex), |apiKeys|, QuotaErrors(responses))
      ensures match responses[QuotaErrors(responses)]
        case Found(items) =>
          (match NormalizeAll(items, parse, format)
           case Failure(k) =>
             err == Some(TimeParseFailed(items[k].snippet.publishedAt)) && collection == old(collection)
           case Success(videos) =>
             && collection == UpsertAll(old(collection), videos[..Written(writeFault, |videos|)])
             && (err.Some? <==> Written(writeFault, |videos|) < |videos|)
             && (err.Some? ==> err == Some(StoreFailed(writeFault.value))))
        case _ =>
          err == Some(SearchFailed(responses[QuotaErrors(responses)])) && collection == old(collection)
    {
      var call := SearchCall(activeKey, query, MaxResults);
      var response := responses[0];
      if IsQuotaError(response) {
        SwitchAPIKey();
        var retries;
        err, retries := PerformFetchAndStore(query, responses[1..], parse, format, writeFault);
        calls := [call] + retries;
        return;
      }
      calls := [call];
      if !response.Found? {
        return Some(SearchFailed(response)), calls;
      }
      var normalized := NormalizeItems(response.items, parse, format);
      if normalized.Failure? {
        NormalizeAllFailure(response.items, parse, format);
        return Some(TimeParseFailed(response.items[normalized.error].snippet.publishedAt)), calls;
      }
      err := StoreVideos(normalized.value, writeFault);
    }

    /**
      `GetPaginatedVideos`: query the collection sorted by `publishedat`
      descending, skipping `(page-1)*pageSize` documents and returning at
      most `pageSize`, then decode the returned documents one by one.
     */
    method GetPaginatedVideos(page: int, pageSize: int, fault: ReadFault) returns (r: Result<seq<Video>, QueryError>)
      ensures fault.FindFault? || Skip(page, pageSize) < 0 ==> r == Failure(FindFailed)
      ensures !fault.FindFault? && Skip(page, pageSize) >= 0 ==>
        var rows := Find(collection, Skip(page, pageSize), pageSize).value;
        r == Cursor(rows, fault)
    {
      var found := Find(collection, Skip(page, pageSize), pageSize);
      if fault.FindFault? || found.Failure? {
        return Failure(FindFailed);
      }
      r := DecodeRows(found.value, fault);
    }
  }

  /**
    What the cursor loop yields for the rows the query returned: all of them;
    the decode error of a row that does not decode; or, when the cursor stops
    early with an iteration error, the rows read so far as a success, because
    `cursor.Err()` is never consulted.
   */
  function Cursor(rows: seq<Video>, fault: ReadFault): (r: Result<seq<Video>, QueryError>)
    ensures r.Failure? <==> fault.DecodeFault? && fault.row < |rows|
    ensures r.Failure? ==> r.error == DecodeFailed(fault.row)
    ensures r.Success? ==> |r.value| <= |rows| && r.value == rows[..|r.value|]
    ensures r.Success? && |r.value| < |rows| <==> fault.IterFault? && fault.row < |rows|
  {
    if fault.DecodeFault? && fault.row < |rows| then Failure(DecodeFailed(fault.row))
    else if fault.IterFault? && fault.row < |rows| then Success(rows[..fault.row])
    else Success(rows)
  }

  /**
    The cursor loop of `GetPaginatedVideos`: decode the returned documents in
    order, giving up at the first one that does not decode, and stopping
    silently where the cursor stops.
   */
  method DecodeRows(rows: seq<Video>, fault: ReadFault) returns (r: Result<seq<Video>, QueryError>)
    ensures r == Cursor(rows, fault)
  {
    var videos: seq<Video> := [];
    var i := 0;
    while i < |rows|
      invariant 0 <= i <= |rows|
      invariant videos == rows[..i]
      invariant fault.DecodeFault? || fault.IterFault? ==> fault.row >= i
    {
      if fault == IterFault(i) {
        return Success(videos);
      }
      if fault == DecodeFault(i) {
        return Failure(DecodeFailed(i));
      }
      videos := videos + [rows[i]];
      i := i + 1;
    }
    assert rows[..|rows|] == rows;
    return Success(videos);
  }

  /** Faults of the read path that the model can inject. */
  datatype ReadFault =
    | NoFault
    | FindFault             // `collection.Find` returns an error
    | DecodeFault(row: nat) // the document at this position of the cursor does not decode
    | IterFault(row: nat)   // `cursor.Next` stops with an error before this position

  /**
    A rate-limited first search followed by a successful one: one rotation,
    the retry with the second key, and one stored batch.
   */
  method RateLimitedThenFound()
  {
    var service := new Service(["key-a", "key-b", "key-c"], map[]);
    var item := SearchResult(
      ResourceId("v1"),
      SearchResultSnippet("title", "description", "2024-01-02T03:04:05Z",
        ThumbnailDetails(Thumbnail("d"), Thumbnail("m"), Thumbnail("h"))));
    var parse := (s: string) => Some(Instant(0, 0));
    var format := (t: Instant) => "2024-01-02T03:04:05Z";
    var responses := [ApiError(QuotaExceeded), Found([item])];
    assert QuotaErrors(responses) == 1;
    var err, calls := service.PerformFetchAndStore("official", responses, parse, format, None);
    assert |calls| == 2;
    assert calls[1].apiKey == "key-b" && calls[1].query == calls[0].query;
    assert service.activeKey == "key-b";
    assert NormalizeAll([item], parse, format).Success?;
    assert err == None;
    assert "v1" in service.collection;
  }
}
