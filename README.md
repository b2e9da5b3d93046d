# YouTube video ingestion service — a Dafny model

The service polls the YouTube Data API for videos matching a fixed query,
turns each search result into a `Video` record and upserts the records into
a MongoDB collection keyed by video ID. A separate HTTP endpoint,
`GET /api/paginated-videos?page=&pageSize=`, serves the stored records
newest first, one page at a time. The service holds several API keys. When a
search fails with HTTP 403 (quota exhausted), it switches to the next key and
retries the same query.

This project models that core and proves its properties:

- `ApiKeys` (`api_keys.dfy`): `getAPIKeys` is Go's `strings.Split` on `,`
  followed by the "at least two keys" check. It also holds the index
  arithmetic of key rotation.
- `Normalizer` (`normalizer.dfy`): the search-result-to-`Video` mapping and
  the loop that builds a batch. The first timestamp that does not parse
  aborts the loop. RFC 3339 parsing and formatting (Go's `time` package) are
  passed in as the functions `parse` and `format`.
- `Store` (`store.dfy`): the collection as a `map` from video ID to the
  fields the upsert sets, with a batch upsert and the sorted, skipped and
  limited read. Documents are sorted by the `publishedat` **string**,
  descending, as the code asks MongoDB to do.
- `YouTubeService` (`youtube_service.dfy`): a class `Service` whose fields
  are the package globals: `apiKeys`, `apiKeyIndex`, the key the client is
  bound to (`activeKey`) and the collection. Its methods are
  `switchAPIKey`, `storeVideosInMongoDB`, `performFetchAndStore` and
  `GetPaginatedVideos`. Search answers are a finite scripted sequence, one
  answer per call. Store and read failures are injected by a position
  parameter.
- `VideoHandler` (`video_handler.dfy`): the handler's parameter defaulting
  (with `strconv.Atoi`'s "0 on error"), and the choice between 200 with the
  records and 500 with `{"error": "Internal Server Error"}`.
- `VideoModel` and `Wrappers`: the `Video` and `Thumbnails` records of
  model/video.go, plus `Option` and `Result`.

Four facts about the code shape the model:

- The read sorts by the stored `publishedat` string, not by a parsed timestamp.
- The thumbnails kept are `default`, `medium` and `high`.
- Key rotation is a plain increment modulo the key count.
- The cursor loop of the read never consults `cursor.Err()`: a cursor that
  stops early with an error yields the rows read so far as a success, and
  the handler answers 200 with that shorter page. The model injects this as
  `IterFault(row)`.

Order among documents with equal `publishedat` strings is unspecified in the
source. The model breaks such ties by ascending video ID.

## Model

| member | source | states |
|---|---|---|
| `ApiKeys.Split` | service/youtube_service.go:71 | a comma split always yields at least one piece, so the `len(keys) == 0` branch can never be taken |
| `ApiKeys.JoinSplit` | service/youtube_service.go:71 | joining the pieces of a split with the separator gives back the original key string |
| `ApiKeys.SplitJoin` | service/youtube_service.go:71 | splitting a join of comma-free keys gives back exactly those keys |
| `ApiKeys.SplitPartsHaveNoSeparator` | service/youtube_service.go:71 | no key produced by the split contains a comma |
| `ApiKeys.SplitLength` | service/youtube_service.go:71-77 | the split yields one key more than there are commas |
| `ApiKeys.CountPositive` | service/youtube_service.go:71-77 | the key string has a comma iff its comma count is positive |
| `ApiKeys.SplitOfSeparatorFree` | service/youtube_service.go:71 | a key string with no comma splits into itself alone (the "only one key" case) |
| `ApiKeys.SplitPrefix` | service/youtube_service.go:71 | splitting at the first comma gives the first key, then the split of the rest |
| `ApiKeys.GetAPIKeys` | service/youtube_service.go:66-79 | the configuration is accepted iff the variable is set and contains a comma; then there are at least two keys, they join back to the variable and none contains a comma (so, by `SplitJoin`, they are exactly the comma-separated pieces); "no keys provided" never occurs; an unset variable is `VariableNotSet` and a set one without a comma is `TooFewKeys` |
| `ApiKeys.Advance` | service/youtube_service.go:143 | any number of rotations from a valid index stays a valid index |
| `ApiKeys.AdvanceCompose` | service/youtube_service.go:143 | `a` rotations followed by `b` rotations are `a + b` rotations |
| `ApiKeys.AdvanceWithinCycle` | service/youtube_service.go:143 | within one cycle, `k` rotations from `i` land on `i + k`, or `i + k - n` once past the end |
| `ApiKeys.AdvanceFullCycle` | service/youtube_service.go:143-144 | exactly `len(apiKeys)` rotations bring the index, and so the bound key, back to where they started |
| `ApiKeys.AdvanceCycles` | service/youtube_service.go:143 | whole cycles of rotations change nothing |
| `Normalizer.ToVideo` | service/youtube_service.go:117-127 | the record takes the video ID, title, description and the default/medium/high thumbnail URLs of the search result, and the given publication time |
| `Normalizer.Normalize` | service/youtube_service.go:112-127 | one item yields a record iff its timestamp parses; the record carries the item's video ID and the re-formatted time |
| `Normalizer.NormalizeAll` | service/youtube_service.go:110-129 | a normalised batch has one record per item; a failure names a position inside the batch |
| `Normalizer.NormalizeAllSuccess` | service/youtube_service.go:117-128 | on success, record `i` comes from item `i`: video ID, title, description and the default/medium/high thumbnail URLs are copied verbatim, and `publishedAt` is `format(parse(...))` |
| `Normalizer.NormalizeAllFailure` | service/youtube_service.go:111-115 | on failure, the reported item is the first one whose timestamp does not parse; every earlier item parses |
| `Normalizer.NormalizeAllFailsIffUnparsable` | service/youtube_service.go:111-115 | the batch fails iff some item's timestamp does not parse |
| `Normalizer.FirstFailureIsNormalizeAll` | service/youtube_service.go:111-115 | when item `k` is the first that does not parse, the batch fails at exactly `k` |
| `Normalizer.NormalizeItems` | service/youtube_service.go:110-129 | the append loop with early return computes exactly `NormalizeAll` |
| `Store.FieldsOf` | service/youtube_service.go:156-163 | the fields the upsert sets, decoded with the key, give back the record |
| `Store.UpsertAll` | service/youtube_service.go:153-168 | after a batch, the stored IDs are the old ones plus every ID of the batch |
| `Store.IdsSnoc` | service/youtube_service.go:153-168 | the IDs of a batch are those of all but its last record, plus the last record's |
| `Store.UpsertAllLookup` | service/youtube_service.go:153-168 | after a batch, an ID holds the fields of its last record in the batch; an ID not in the batch keeps its old value or stays absent |
| `Store.LatestIsLastOccurrence` | service/youtube_service.go:153-168 | the value a batch leaves for an ID is the one from its last occurrence |
| `Store.LatestAbsent` | service/youtube_service.go:153-168 | a batch leaves no value for an ID exactly when no record of the batch has it |
| `Store.UpsertReadBack` | service/youtube_service.go:153-168 | reading back the document of a record that is last with its ID gives that record |
| `Store.UpsertKeepsOthers` | service/youtube_service.go:153-168 | documents whose IDs are not in the batch are unchanged |
| `Store.UpsertAllAppend` | service/youtube_service.go:153-168 | upserting `a + b` equals upserting `a` and then `b` (record-at-a-time writes) |
| `Store.LatestAppend` | service/youtube_service.go:153-168 | in a concatenated batch, a record in the second part overrides any record with the same ID in the first part |
| `Store.LookupExtensional` | service/youtube_service.go:153-168 | two collections that answer every ID lookup alike are the same collection |
| `Store.UpsertAllIdempotent` | service/youtube_service.go:153-168 | upserting the same batch twice leaves the collection as after the first time |
| `Store.LaterBatchWins` | service/youtube_service.go:153-168 | across two cycles, an ID in the later batch ends with the later batch's fields (last write wins) |
| `Store.LexLessIrreflexive` | service/youtube_service.go:181 | the string order of `publishedat` is irreflexive |
| `Store.LexLessTransitive` | service/youtube_service.go:181 | the string order is transitive |
| `Store.LexLessTotal` | service/youtube_service.go:181 | any two different strings are ordered one way or the other |
| `Store.BeforeAsymmetric` | service/youtube_service.go:181 | the listing order (newer `publishedat` first, then smaller ID) is asymmetric |
| `Store.BeforeTransitive` | service/youtube_service.go:181 | the listing order is transitive |
| `Store.BeforeTotal` | service/youtube_service.go:181 | documents with different IDs are always ordered |
| `Store.BeforeNotOlder` | service/youtube_service.go:181 | a document listed first never has a smaller `publishedat` string |
| `Store.BeforeIsStrict` | service/youtube_service.go:181 | the listing order is a strict order |
| `Store.NewestExists` | service/youtube_service.go:181 | every non-empty collection has a first document in the listing order |
| `Store.NewestThenRest` | service/youtube_service.go:181-183 | the first document followed by the sorted rest is the sorted collection |
| `Store.HeadBeforeRest` | service/youtube_service.go:181 | the first document comes before every other stored document, whose ID differs from it |
| `Store.ConsIds` | service/youtube_service.go:181-183 | prepending a record adds exactly its ID to the listed IDs |
| `Store.ConsStored` | service/youtube_service.go:181-183 | prepending the first document keeps every listed record equal to its stored document |
| `Store.ConsOrdered` | service/youtube_service.go:181-183 | prepending the first document keeps the listing strictly ordered, with no repeated ID |
| `Store.SortedView` | service/youtube_service.go:178-183 | the sorted collection lists every stored document exactly once, as stored, each before the next in `publishedat`-descending order |
| `Store.Window` | service/youtube_service.go:179-180 | skip then limit: at most `limit` rows, the rows from position `skip` on, none when `skip` is past the end |
| `Store.PageOfCollection` | service/youtube_service.go:178-198 | for page and size at least 1, the page is the slice `[(page-1)*size, (page-1)*size + size)` of the sorted collection; it has at most `size` stored documents, newest first, is empty iff the skip reaches past the collection, and holds exactly `min(size, |c| - skip)` documents otherwise |
| `Store.Find` | service/youtube_service.go:178-183 | the query fails iff the skip is negative; a zero limit means no limit and a negative limit `-n` means `n`; it returns exactly `min(limit, |c| - skip)` documents, none past the end |
| `Store.WindowOfView` | service/youtube_service.go:178-198 | any skip/limit window holds stored documents with non-increasing `publishedat` |
| `YouTubeService.Skip` | service/youtube_service.go:179 | the skip of page 1 is 0, and the skip of any page ≥ 1 is non-negative and at least `page - 1` when the size is positive |
| `YouTubeService.Service.constructor` | service/youtube_service.go:43-55 | starts with the validated key list, index 0 and the client bound to the first key |
| `YouTubeService.Service.SwitchAPIKey` | service/youtube_service.go:139-145 | the index becomes `(old + 1) % len(apiKeys)` and stays in range; the client is rebound to `apiKeys[apiKeyIndex]`; keys and collection are unchanged |
| `YouTubeService.Service.StoreVideos` | service/youtube_service.go:148-171 | the records before the failing write, and only those, are upserted in order; an error is returned iff a write fails |
| `YouTubeService.Service.PerformFetchAndStore` | service/youtube_service.go:93-136 | each 403 causes one rotation and a retry of the same query with the next key. Any other search error, or an unparsable timestamp, returns an error and leaves the collection unchanged. Otherwise the normalised batch is upserted up to the first failing write |
| `YouTubeService.Service.GetPaginatedVideos` | service/youtube_service.go:173-199 | a failed query (or negative skip) is an error; otherwise the result is what the cursor loop yields for the sorted, skipped, limited window (`Cursor`) |
| `YouTubeService.Cursor` | service/youtube_service.go:189-198 | the cursor loop fails iff a row inside the window does not decode; a success is a prefix of the window, and a strictly shorter one exactly when the cursor stops early, since `cursor.Err()` is not checked |
| `YouTubeService.DecodeRows` | service/youtube_service.go:189-198 | the loop with its early returns computes exactly `Cursor` |
| `VideoHandler.Atoi` | api/video_handler.go:16 | text that is not an optional sign followed by digits reads as 0; an unsigned numeral reads as non-negative |
| `VideoHandler.Decimal` | api/video_handler.go:16 | the decimal numeral of a natural number is a non-empty digit string |
| `VideoHandler.DigitsValueOfDecimal` | api/video_handler.go:16 | the digits of a natural number's numeral read back as that number |
| `VideoHandler.AtoiItoa` | api/video_handler.go:16 | `Atoi` reads back every integer's decimal numeral (round trip with `Itoa`) |
| `VideoHandler.ClampPage` | api/video_handler.go:17-19 | a page below 1 becomes 1; any page ≥ 1 passes through unchanged |
| `VideoHandler.ClampPageSize` | api/video_handler.go:12 | a size of 0 or less becomes 10; any positive size passes through unchanged, with no upper bound |
| `VideoHandler.PageParams` | api/video_handler.go:16-25 | the defaulted page and page size are both at least 1 |
| `VideoHandler.MissingOrInvalidParams` | api/video_handler.go:16-25 | a missing, non-numeric or too-small `page` behaves exactly like `page=1`; the same for `pageSize` and `pageSize=10` |
| `VideoHandler.ValidParamsPassThrough` | api/video_handler.go:17-25 | parameters that read as at least 1 pass through unchanged |
| `VideoHandler.PageParamsIdempotent` | api/video_handler.go:16-25 | sending the defaulted values back as parameters yields the same page and size |
| `VideoHandler.HandlerSkipNonNegative` | api/video_handler.go:16-28 | the skip the handler's parameters lead to is never negative |
| `VideoHandler.PrefixNewestFirst` | api/video_handler.go:34 | the shorter page left by an early cursor stop is still newest first |
| `VideoHandler.Respond` | api/video_handler.go:29-34 | status 200 iff the service succeeded, with its records unchanged; otherwise 500 with the fixed `Internal Server Error` body, whatever the error was |
| `VideoHandler.GetPaginatedVideosHandler` | api/video_handler.go:14-35 | end to end: the response is the defaulted page of the sorted collection with status 200 (at most `pageSize` records, newest first), or the fixed 500 when the find or a decode fails; a cursor that stops early gives a 200 with the shorter page, still newest first |

## Left out

- main.go (router, CORS, starting the goroutine, `router.Run`) is wiring and is not part of this model.
- `init` and `initYouTubeClient`: loading `.env`, the Mongo connection and ping, and building the client are I/O. Rebinding the client is modelled only as setting `activeKey`. A client constructor failure (fatal in the source) is not modelled.
- `FetchAndStoreVideos`: the endless loop with a 10-second sleep and logging. Each cycle is one call of `PerformFetchAndStore`; the loop and its timing are not modelled.
- `YouTubeService.Service.PerformFetchAndStore`: it requires that some search answer in the script is not a 403. In the source, a search that answers 403 forever makes the retry recurse without end. That divergence is outside the model.
- The mutex `apiKeyMutex`: the model is sequential.
- BSON filter and `$set` construction, cursor batching and `cursor.Close`; of the cursor's failures the model keeps the decode error and the early stop whose error is never read (`IterFault`). The collection is a map, and the query result is a sequence. `DATABASE_NAME` and `COLLECTION_NAME` are not modelled (one collection).
- RFC 3339 parsing and formatting are Go library code: they are the parameters `parse` and `format` of the normaliser, not definitions.
- `YouTubeService.Service.GetPaginatedVideos`: MongoDB's handling of out-of-range arguments is modelled as the server does it: a negative skip fails the query, a zero limit means no limit, and a negative limit `-n` returns `n`. Ties among equal `publishedat` strings are ordered by ascending video ID, where the database leaves their order unspecified.
- `YouTubeService.Service.GetPaginatedVideos`: the sort compares the `publishedat` strings, as the source does. It matches chronological order only when all stored timestamps carry the same zone offset. The model proves nothing about chronology.
- `VideoHandler.Atoi`: the range error of `strconv.Atoi` for numerals too large for a Go `int` is not modelled; integers are unbounded.
- Go `int` overflow in `(page-1)*pageSize` is not modelled: the model uses mathematical integers.
- JSON encoding is not modelled. That includes Go encoding an empty page (a nil slice) as `null`: the model returns an empty sequence.
- A search result with a missing thumbnail (a nil pointer dereference in the source) is not modelled: every result carries the three thumbnails.
- Logging is not modelled.
