/**
  The MongoDB video collection as the service uses it
  (service/youtube_service.go): one document per video ID, written by
  upserts that overwrite every other field, and read back sorted by the
  `publishedat` string, newest first, with a skip and a limit.

  The collection is a map from video ID to the fields the upsert sets, so
  a video ID can never be stored twice.
 */
module Store {
  import opened Wrappers
  import opened VideoModel

  /** The fields an upsert sets (`$set`); the video ID is the document's key. */
  datatype Fields = Fields(title: string, description: string, publishedAt: string, thumbnails: Thumbnails)

  type Collection = map<string, Fields>

  /** Why a read of the collection fails. */
  datatype QueryError =
    | FindFailed              // the query itself is refused (connection, negative skip)
    | DecodeFailed(row: nat)  // a returned document does not decode into a Video

  /** The document stored for a record; decoding it gives the record back. */
  function FieldsOf(v: Video): (f: Fields)
    ensures Document(v.id, f) == v
  {
    Fields(v.title, v.description, v.publishedAt, v.thumbnails)
  }

  /** A stored document decoded into a `Video`. */
  function Document(id: string, f: Fields): Video
  {
    Video(id, f.title, f.description, f.publishedAt, f.thumbnails)
  }

  function Lookup(c: Collection, id: string): Option<Fields>
  {
    if id in c then Some(c[id]) else None
  }

  // ---------------------------------------------------------------------
  // Upsert
  // ---------------------------------------------------------------------

  /** Upserting the records one at a time, in order (`UpdateOne` with `SetUpsert(true)`). */
  function UpsertAll(c: Collection, vs: seq<Video>): (r: Collection)
    ensures r.Keys == c.Keys + Ids(vs)
    decreases |vs|
  {
    if vs == [] then
      assert Ids(vs) == {};
      c
    else
      var last := vs[|vs| - 1];
      IdsSnoc(vs);
      UpsertAll(c, vs[..|vs| - 1])[last.id := FieldsOf(last)]
  }

  /** The IDs of a non-empty batch: those of all but its last record, and the last one's. */
  lemma IdsSnoc(vs: seq<Video>)
    requires vs != []
    ensures Ids(vs) == Ids(vs[..|vs| - 1]) + {vs[|vs| - 1].id}
  {
    var init := vs[..|vs| - 1];
    forall k | k in Ids(vs) ensures k in Ids(init) + {vs[|vs| - 1].id} {
      var i :| 0 <= i < |vs| && vs[i].id == k;
      if i < |vs| - 1 { assert init[i] == vs[i]; }
    }
    forall k | k in Ids(init) ensures k in Ids(vs) {
      var i :| 0 <= i < |init| && init[i].id == k;
      assert vs[i] == init[i];
    }
  }

  /** The fields of the last record of `vs` with this ID, if any. */
  function Latest(vs: seq<Video>, id: string): Option<Fields>
    decreases |vs|
  {
    if vs == [] then None
    else if vs[|vs| - 1].id == id then Some(FieldsOf(vs[|vs| - 1]))
    else Latest(vs[..|vs| - 1], id)
  }

  /**
    After a batch, an ID holds the fields of its last record in the batch;
    an ID the batch does not mention keeps what it had (or stays absent).
   */
  lemma {:induction false} UpsertAllLookup(c: Collection, vs: seq<Video>, id: string)
    ensures Lookup(UpsertAll(c, vs), id) == if Latest(vs, id).Some? then Latest(vs, id) else Lookup(c, id)
    decreases |vs|
  {
    if vs != [] {
      UpsertAllLookup(c, vs[..|vs| - 1], id);
    }
  }

  /** `Latest` is the last occurrence: the record at `j`, when no later record has its ID. */
  lemma {:induction false} LatestIsLastOccurrence(vs: seq<Video>, j: nat)
    requires j < |vs|
    requires forall l :: j < l < |vs| ==> vs[l].id != vs[j].id
    ensures Latest(vs, vs[j].id) == Some(FieldsOf(vs[j]))
    decreases |vs|
  {
    if j < |vs| - 1 {
      var prefix := vs[..|vs| - 1];
      assert prefix[j] == vs[j];
      LatestIsLastOccurrence(prefix, j);
    }
  }

  /** `Latest` is absent exactly when no record of the batch has the ID. */
  lemma {:induction false} LatestAbsent(vs: seq<Video>, id: string)
    ensures Latest(vs, id).None? <==> forall j :: 0 <= j < |vs| ==> vs[j].id != id
    decreases |vs|
  {
    if vs != [] {
      var prefix := vs[..|vs| - 1];
      LatestAbsent(prefix, id);
      assert forall j :: 0 <= j < |prefix| ==> prefix[j] == vs[j];
    }
  }

  /**
    Reading back the document of a record that is the last with its ID in
    the batch gives exactly that record.
   */
  lemma UpsertReadBack(c: Collection, vs: seq<Video>, j: nat)
    requires j < |vs|
    requires forall l :: j < l < |vs| ==> vs[l].id != vs[j].id
    ensures vs[j].id in UpsertAll(c, vs)
    ensures Document(vs[j].id, UpsertAll(c, vs)[vs[j].id]) == vs[j]
  {
    UpsertAllLookup(c, vs, vs[j].id);
    LatestIsLastOccurrence(vs, j);
  }

  /** An ID that no record of the batch carries is left exactly as it was. */
  lemma UpsertKeepsOthers(c: Collection, vs: seq<Video>, id: string)
    requires forall j :: 0 <= j < |vs| ==> vs[j].id != id
    ensures Lookup(UpsertAll(c, vs), id) == Lookup(c, id)
  {
    UpsertAllLookup(c, vs, id);
    LatestAbsent(vs, id);
  }

  /** Two collections that agree on every lookup are equal. */
  lemma LookupExtensional(c: Collection, d: Collection)
    requires forall id :: Lookup(c, id) == Lookup(d, id)
    ensures c == d
  {
    assert forall id :: id in c <==> Lookup(c, id).Some?;
    assert c.Keys == d.Keys;
    forall id | id in c ensures c[id] == d[id] {
      assert Lookup(c, id) == Lookup(d, id);
    }
  }

  /** Upserting a batch and then a second batch is upserting the two in sequence. */
  lemma UpsertAllAppend(c: Collection, a: seq<Video>, b: seq<Video>)
    ensures UpsertAll(c, a + b) == UpsertAll(UpsertAll(c, a), b)
  {
    forall id ensures Lookup(UpsertAll(c, a + b), id) == Lookup(UpsertAll(UpsertAll(c, a), b), id) {
      UpsertAllLookup(c, a + b, id);
      UpsertAllLookup(UpsertAll(c, a), b, id);
      UpsertAllLookup(c, a, id);
      LatestAppend(a, b, id);
    }
    LookupExtensional(UpsertAll(c, a + b), UpsertAll(UpsertAll(c, a), b));
  }

  lemma {:induction false} LatestAppend(a: seq<Video>, b: seq<Video>, id: string)
    ensures Latest(a + b, id) == if Latest(b, id).Some? then Latest(b, id) else Latest(a, id)
    decreases |b|
  {
    if b != [] {
      assert (a + b)[..|a + b| - 1] == a + b[..|b| - 1];
      LatestAppend(a, b[..|b| - 1], id);
    } else {
      assert a + b == a;
    }
  }

  /** Upserting the same batch twice leaves the collection as after the first time. */
  lemma UpsertAllIdempotent(c: Collection, vs: seq<Video>)
    ensures UpsertAll(UpsertAll(c, vs), vs) == UpsertAll(c, vs)
  {
    forall id ensures Lookup(UpsertAll(UpsertAll(c, vs), vs), id) == Lookup(UpsertAll(c, vs), id) {
      UpsertAllLookup(UpsertAll(c, vs), vs, id);
      UpsertAllLookup(c, vs, id);
    }
    LookupExtensional(UpsertAll(UpsertAll(c, vs), vs), UpsertAll(c, vs));
  }

  /**
    Last write wins across cycles: whatever an earlier batch wrote, an ID
    that a later batch carries ends up with the later batch's fields.
   */
  lemma LaterBatchWins(c: Collection, earlier: seq<Video>, later: seq<Video>, j: nat)
    requires j < |later|
    requires forall l :: j < l < |later| ==> later[l].id != later[j].id
    ensures Lookup(UpsertAll(UpsertAll(c, earlier), later), later[j].id) == Some(FieldsOf(later[j]))
  {
    UpsertAllLookup(UpsertAll(c, earlier), later, later[j].id);
    LatestIsLastOccurrence(later, j);
  }

  // ---------------------------------------------------------------------
  // Order: the `publishedat` string, descending
  // ---------------------------------------------------------------------

  /**
    Strict lexicographic order of strings by code point (the order MongoDB
    gives strings under its default binary collation: UTF-8 byte order and
    code-point order agree).
   */
  predicate LexLess(a: string, b: string)
    decreases |a|
  {
    if a == [] then b != []
    else if b == [] then false
    else if a[0] != b[0] then a[0] < b[0]
    else LexLess(a[1..], b[1..])
  }

  lemma {:induction false} LexLessIrreflexive(a: string)
    ensures !LexLess(a, a)
    decreases |a|
  {
    if a != [] {
      LexLessIrreflexive(a[1..]);
    }
  }

  lemma {:induction false} LexLessTransitive(a: string, b: string, c: string)
    requires LexLess(a, b) && LexLess(b, c)
    ensures LexLess(a, c)
    decreases |a|
  {
    if a != [] && a[0] == b[0] && b[0] == c[0] {
      LexLessTransitive(a[1..], b[1..], c[1..]);
    }
  }

  lemma {:induction false} LexLessTotal(a: string, b: string)
    requires a != b
    ensures LexLess(a, b) || LexLess(b, a)
    decreases |a|
  {
    if a != [] && b != [] && a[0] == b[0] {
      assert a == [a[0]] + a[1..] && b == [b[0]] + b[1..];
      LexLessTotal(a[1..], b[1..]);
    }
  }

  /**
    `x` is listed before `y`: it was published later, or at the same
    `publishedat` string with a smaller video ID.
   */
  predicate Before(x: Video, y: Video)
  {
    LexLess(y.publishedAt, x.publishedAt) || (x.publishedAt == y.publishedAt && LexLess(x.id, y.id))
  }

  lemma BeforeAsymmetric(x: Video, y: Video)
    requires Before(x, y)
    ensures !Before(y, x)
  {
    LexLessIrreflexive(x.publishedAt);
    LexLessIrreflexive(x.id);
    if LexLess(y.publishedAt, x.publishedAt) && LexLess(x.publishedAt, y.publishedAt) {
      LexLessTransitive(x.publishedAt, y.publishedAt, x.publishedAt);
    }
    if x.publishedAt == y.publishedAt && LexLess(x.id, y.id) && LexLess(y.id, x.id) {
      LexLessTransitive(x.id, y.id, x.id);
    }
  }

  lemma BeforeTransitive(x: Video, y: Video, z: Video)
    requires Before(x, y) && Before(y, z)
    ensures Before(x, z)
  {
    if LexLess(y.publishedAt, x.publishedAt) && LexLess(z.publishedAt, y.publishedAt) {
      LexLessTransitive(z.publishedAt, y.publishedAt, x.publishedAt);
    } else if x.publishedAt == y.publishedAt == z.publishedAt {
      if LexLess(x.id, y.id) && LexLess(y.id, z.id) {
        LexLessTransitive(x.id, y.id, z.id);
      } else {
        LexLessIrreflexive(x.publishedAt);
        assert false;
      }
    }
  }

  lemma BeforeTotal(x: Video, y: Video)
    requires x.id != y.id
    ensures Before(x, y) || Before(y, x)
  {
    LexLessTotal(x.id, y.id);
    if x.publishedAt != y.publishedAt {
      LexLessTotal(x.publishedAt, y.publishedAt);
    }
  }

  /** A record listed before another was not published earlier. */
  lemma BeforeNotOlder(x: Video, y: Video)
    requires Before(x, y)
    ensures !LexLess(x.publishedAt, y.publishedAt)
  {
    LexLessIrreflexive(x.publishedAt);
    if LexLess(y.publishedAt, x.publishedAt) && LexLess(x.publishedAt, y.publishedAt) {
      LexLessTransitive(x.publishedAt, y.publishedAt, x.publishedAt);
    }
  }

  lemma BeforeIsStrict()
    ensures forall x: Video, y: Video :: Before(x, y) ==> !Before(y, x)
  {
    forall x: Video, y: Video | Before(x, y) ensures !Before(y, x) {
      BeforeAsymmetric(x, y);
    }
  }

  // ---------------------------------------------------------------------
  // The sorted view and the paginated find
  // ---------------------------------------------------------------------

  /** `id` holds the document that comes first in the collection's order. */
  predicate IsNewest(c: Collection, id: string)
  {
    id in c && forall o :: o in c && o != id ==> Before(Document(id, c[id]), Document(o, c[o]))
  }

  /** Every non-empty collection has a first document. */
  lemma {:induction false} NewestExists(c: Collection)
    requires |c| > 0
    ensures exists id :: IsNewest(c, id)
    decreases |c|
  {
    var x :| x in c;
    var rest := c - {x};
    assert rest.Keys == c.Keys - {x};
    if |rest| == 0 {
      assert IsNewest(c, x);
    } else {
      NewestExists(rest);
      var m :| IsNewest(rest, m);
      assert forall o :: o in rest ==> o in c && rest[o] == c[o];
      var dx, dm := Document(x, c[x]), Document(m, c[m]);
      BeforeTotal(dx, dm);
      if Before(dx, dm) {
        forall o | o in c && o != x ensures Before(dx, Document(o, c[o])) {
          if o != m {
            assert o in rest;
            BeforeTransitive(dx, dm, Document(o, c[o]));
          }
        }
        assert IsNewest(c, x);
      } else {
        forall o | o in c && o != m ensures Before(dm, Document(o, c[o])) {
          if o != x {
            assert o in rest;
          }
        }
        assert IsNewest(c, m);
      }
    }
  }

  /** The video IDs of a sequence of records. */
  function Ids(rows: seq<Video>): set<string>
  {
    set i | 0 <= i < |rows| :: rows[i].id
  }

  /**
    `rows` lists the whole collection in the order the query asks for:
    every stored document exactly once, each decoded as stored, each
    listed before the next.
   */
  predicate IsSortedView(c: Collection, rows: seq<Video>)
  {
    && |rows| == |c|
    && Ids(rows) == c.Keys
    && AllStored(c, rows)
    && StrictlyOrdered(rows)
  }

  /** Every row is the document stored under its ID. */
  predicate AllStored(c: Collection, rows: seq<Video>)
  {
    forall i :: 0 <= i < |rows| ==> rows[i].id in c && rows[i] == Document(rows[i].id, c[rows[i].id])
  }

  /** Each row comes before every later one, so no ID repeats. */
  predicate StrictlyOrdered(rows: seq<Video>)
  {
    forall i, j :: 0 <= i < j < |rows| ==> rows[i].id != rows[j].id && Before(rows[i], rows[j])
  }

  /** The first document followed by the sorted view of the others is the sorted view. */
  lemma NewestThenRest(c: Collection, id: string, tail: seq<Video>)
    requires IsNewest(c, id)
    requires IsSortedView(c - {id}, tail)
    ensures IsSortedView(c, [Document(id, c[id])] + tail)
  {
    assert (c - {id}).Keys == c.Keys - {id};
    ConsIds(id, Document(id, c[id]), tail);
    ConsStored(c, id, tail);
    ConsOrdered(c, id, tail);
  }

  lemma ConsStored(c: Collection, id: string, tail: seq<Video>)
    requires id in c
    requires AllStored(c - {id}, tail)
    ensures AllStored(c, [Document(id, c[id])] + tail)
  {
    var rest := c - {id};
    var rows := [Document(id, c[id])] + tail;
    forall i | 0 <= i < |rows| ensures rows[i].id in c && rows[i] == Document(rows[i].id, c[rows[i].id]) {
      if i > 0 {
        assert rows[i] == tail[i - 1];
        assert tail[i - 1].id in rest;
      }
    }
  }

  lemma ConsOrdered(c: Collection, id: string, tail: seq<Video>)
    requires IsNewest(c, id)
    requires AllStored(c - {id}, tail) && StrictlyOrdered(tail)
    ensures StrictlyOrdered([Document(id, c[id])] + tail)
  {
    var rest := c - {id};
    var rows := [Document(id, c[id])] + tail;
    forall i, j | 0 <= i < j < |rows| ensures rows[i].id != rows[j].id && Before(rows[i], rows[j]) {
      assert rows[j] == tail[j - 1];
      if i == 0 {
        HeadBeforeRest(c, id, tail[j - 1]);
      } else {
        assert rows[i] == tail[i - 1];
        assert tail[i - 1].id != tail[j - 1].id && Before(tail[i - 1], tail[j - 1]);
      }
    }
  }

  /** The first document comes before every other stored document. */
  lemma HeadBeforeRest(c: Collection, id: string, y: Video)
    requires IsNewest(c, id)
    requires y.id in c - {id} && y == Document(y.id, (c - {id})[y.id])
    ensures y.id != id && Before(Document(id, c[id]), y)
  {
    assert y.id in c && y.id != id && (c - {id})[y.id] == c[y.id];
  }

  lemma ConsIds(id: string, head: Video, tail: seq<Video>)
    requires head.id == id
    ensures Ids([head] + tail) == {id} + Ids(tail)
  {
    var rows := [head] + tail;
    forall k | k in Ids(rows) ensures k in {id} + Ids(tail) {
      var i :| 0 <= i < |rows| && rows[i].id == k;
      if i > 0 { assert tail[i - 1] == rows[i]; }
    }
    forall k | k in Ids(tail) ensures k in Ids(rows) {
      var i :| 0 <= i < |tail| && tail[i].id == k;
      assert rows[i + 1] == tail[i];
    }
    assert rows[0].id == id;
  }

  /** The whole collection in the order the query asks for. */
  function SortedView(c: Collection): (rows: seq<Video>)
    ensures IsSortedView(c, rows)
    decreases |c|
  {
    if |c| == 0 then
      assert c.Keys == {};
      []
    else
      NewestExists(c);
      BeforeIsStrict();
      var id :| IsNewest(c, id);
      assert (c - {id}).Keys == c.Keys - {id};
      var tail := SortedView(c - {id});
      NewestThenRest(c, id, tail);
      [Document(id, c[id])] + tail
  }

  /** The records of `rows` from position `skip`, at most `limit` of them. */
  function Window(rows: seq<Video>, skip: nat, limit: nat): (w: seq<Video>)
    ensures |w| <= limit
    ensures |w| == if skip >= |rows| then 0 else if limit < |rows| - skip then limit else |rows| - skip
    ensures forall j :: 0 <= j < |w| ==> w[j] == rows[skip + j]
  {
    if skip >= |rows| then []
    else rows[skip..if limit < |rows| - skip then skip + limit else |rows|]
  }

  /**
    The server side of `collection.Find` with a sort on `publishedat`
    (descending), a skip and a limit: a negative skip is refused, a zero
    limit means no limit, a negative limit `-n` means `n`.
   */
  function Find(c: Collection, skip: int, limit: int): (r: Result<seq<Video>, QueryError>)
    ensures r.Success? <==> skip >= 0
    ensures r.Failure? ==> r.error == FindFailed
    ensures r.Success? ==> |r.value| <= |c| && (limit > 0 ==> |r.value| <= limit) && (limit < 0 ==> |r.value| <= -limit)
    ensures r.Success? ==> |r.value| == (if skip >= |c| then 0 else if limit != 0 && (if limit < 0 then -limit else limit) < |c| - skip then (if limit < 0 then -limit else limit) else |c| - skip)
  {
    if skip < 0 then Failure(FindFailed)
    else Success(Window(SortedView(c), skip, if limit == 0 then |c| else if limit < 0 then -limit else limit))
  }

  /** Published-at strings never increase along the sequence. */
  predicate NewestFirst(rows: seq<Video>)
  {
    forall i, j :: 0 <= i < j < |rows| ==> !LexLess(rows[i].publishedAt, rows[j].publishedAt)
  }

  /**
    A page of the collection (page and page size at least 1): the slice
    `[(page-1)*pageSize, (page-1)*pageSize + pageSize)` of the sorted view,
    at most `pageSize` stored documents, newest first, empty exactly when
    the skip reaches past the collection.
   */
  lemma PageOfCollection(c: Collection, page: int, pageSize: int)
    requires page >= 1 && pageSize >= 1
    ensures var skip := (page - 1) * pageSize;
      && skip >= 0
      && Find(c, skip, pageSize).Success?
      && var w := Find(c, skip, pageSize).value;
      && |w| <= pageSize
      && |w| == (if skip >= |c| then 0 else if pageSize < |c| - skip then pageSize else |c| - skip)
      && (w == [] <==> skip >= |c|)
      && (forall j :: 0 <= j < |w| ==> w[j] == SortedView(c)[skip + j])
      && (forall j :: 0 <= j < |w| ==> w[j].id in c && w[j] == Document(w[j].id, c[w[j].id]))
      && NewestFirst(w)
  {
    var skip := (page - 1) * pageSize;
    NonNegativeProduct(page - 1, pageSize);
    var rows := SortedView(c);
    assert |rows| == |c|;
    assert Find(c, skip, pageSize) == Success(Window(rows, skip, pageSize));
    WindowOfView(c, skip, pageSize);
  }

  /** Any window of the sorted view holds stored documents, newest first. */
  lemma WindowOfView(c: Collection, skip: nat, limit: nat)
    ensures var w := Window(SortedView(c), skip, limit);
      && (forall j :: 0 <= j < |w| ==> w[j].id in c && w[j] == Document(w[j].id, c[w[j].id]))
      && NewestFirst(w)
  {
    var rows := SortedView(c);
    var w := Window(rows, skip, limit);
    forall j | 0 <= j < |w| ensures w[j].id in c && w[j] == Document(w[j].id, c[w[j].id]) {
      assert w[j] == rows[skip + j];
    }
    forall i, j | 0 <= i < j < |w| ensures !LexLess(w[i].publishedAt, w[j].publishedAt) {
      assert w[i] == rows[skip + i] && w[j] == rows[skip + j];
      BeforeNotOlder(w[i], w[j]);
    }
  }

  lemma NonNegativeProduct(a: int, b: int)
    requires a >= 0 && b >= 0
    ensures a * b >= 0
  {
  }
}
