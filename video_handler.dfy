/**
  The HTTP handler of api/video_handler.go: read `page` and `pageSize`
  from the query string, default them, ask the service for that page and
  answer 200 with the records or 500 with a fixed error body.
 */
module VideoHandler {
  import opened Wrappers
  import opened VideoModel
  import opened Store
  import opened YouTubeService

  const DefaultPageSize: int := 10
  const StatusOK: int := 200
  const StatusInternalServerError: int := 500
  const InternalServerError: string := "Internal Server Error"

  /** The JSON body: the list of records, or `{"error": ...}`. */
  datatype Body = VideoList(videos: seq<Video>) | ErrorBody(error: string)

  datatype Response = Response(status: int, body: Body)

  // ---------------------------------------------------------------------
  // strconv.Atoi, as far as the handler relies on it
  // ---------------------------------------------------------------------

  predicate IsDigit(ch: char)
  {
    '0' <= ch <= '9'
  }

  predicate AllDigits(s: string)
  {
    forall i :: 0 <= i < |s| ==> IsDigit(s[i])
  }

  /** The value of a string of decimal digits. */
  function DigitsValue(s: string): nat
    requires AllDigits(s)
    decreases |s|
  {
    if s == [] then 0 else DigitsValue(s[..|s| - 1]) * 10 + (s[|s| - 1] as int - '0' as int)
  }

  predicate HasSign(s: string)
  {
    s != [] && (s[0] == '+' || s[0] == '-')
  }

  /** The text `Atoi` accepts: an optional sign and at least one decimal digit. */
  predicate IsNumeral(s: string)
  {
    var digits := if HasSign(s) then s[1..] else s;
    digits != [] && AllDigits(digits)
  }

  /**
    `strconv.Atoi` with its error ignored, as the handler uses it: the
    signed decimal value of a numeral, and 0 for anything else (a missing
    parameter is the empty string).
   */
  function Atoi(s: string): (n: int)
    ensures !IsNumeral(s) ==> n == 0
    ensures IsNumeral(s) && s[0] != '-' ==> n >= 0
  {
    if s == [] then 0
    else if s[0] == '-' || s[0] == '+' then
      var digits := s[1..];
      if digits != [] && AllDigits(digits) then
        (if s[0] == '-' then -(DigitsValue(digits) as int) else DigitsValue(digits))
      else 0
    else if AllDigits(s) then DigitsValue(s)
    else 0
  }

  function DigitChar(d: nat): char
    requires d < 10
  {
    ('0' as int + d) as char
  }

  /** The decimal numeral of a natural number (`strconv.Itoa` for n >= 0). */
  function Decimal(n: nat): (s: string)
    ensures s != [] && AllDigits(s)
  {
    if n < 10 then [DigitChar(n)] else Decimal(n / 10) + [DigitChar(n % 10)]
  }

  /** `strconv.Itoa`. */
  function Itoa(n: int): string
  {
    if n < 0 then "-" + Decimal(-n) else Decimal(n)
  }

  lemma {:induction false} DigitsValueOfDecimal(n: nat)
    ensures DigitsValue(Decimal(n)) == n
  {
    if n >= 10 {
      DigitsValueOfDecimal(n / 10);
      var s := Decimal(n);
      assert s[..|s| - 1] == Decimal(n / 10);
    }
  }

  /** `Atoi` reads back every number `Itoa` writes. */
  lemma AtoiItoa(n: int)
    ensures IsNumeral(Itoa(n)) && Atoi(Itoa(n)) == n
  {
    if n < 0 {
      var d := Decimal(-n);
      DigitsValueOfDecimal(-n);
      assert Itoa(n) == "-" + d;
      assert Itoa(n)[1..] == d;
    } else {
      var d := Decimal(n);
      DigitsValueOfDecimal(n);
      assert IsDigit(d[0]);
      assert Itoa(n) == d;
    }
  }

  // ---------------------------------------------------------------------
  // The handler
  // ---------------------------------------------------------------------

  /** A page number below 1 becomes 1. */
  function ClampPage(page: int): (p: int)
    ensures p >= 1
    ensures page >= 1 ==> p == page
    ensures page < 1 ==> p == 1
  {
    if page < 1 then 1 else page
  }

  /** A page size of 0 or less becomes the default; there is no upper bound. */
  function ClampPageSize(pageSize: int): (s: int)
    ensures s >= 1
    ensures pageSize >= 1 ==> s == pageSize
    ensures pageSize <= 0 ==> s == DefaultPageSize
  {
    if pageSize <= 0 then DefaultPageSize else pageSize
  }

  /** The page and page size the handler asks for, from the two query parameters. */
  function PageParams(pageQuery: string, pageSizeQuery: string): (r: (int, int))
    ensures r.0 >= 1 && r.1 >= 1
  {
    (ClampPage(Atoi(pageQuery)), ClampPageSize(Atoi(pageSizeQuery)))
  }

  /**
    A page parameter that is missing, not a number, or below 1 acts as
    page 1; a page size that is missing, not a number, or not positive
    acts as 10. Both are said as equalities with the explicit requests.
   */
  lemma MissingOrInvalidParams(pageQuery: string, pageSizeQuery: string)
    ensures Atoi(pageQuery) < 1 ==> PageParams(pageQuery, pageSizeQuery) == PageParams("1", pageSizeQuery)
    ensures Atoi(pageSizeQuery) < 1 ==> PageParams(pageQuery, pageSizeQuery) == PageParams(pageQuery, "10")
    ensures !IsNumeral(pageQuery) ==> PageParams(pageQuery, pageSizeQuery).0 == 1
    ensures !IsNumeral(pageSizeQuery) ==> PageParams(pageQuery, pageSizeQuery).1 == DefaultPageSize
  {
    AtoiItoa(1);
    AtoiItoa(10);
    assert Itoa(1) == "1" && Itoa(10) == "10";
  }

  /** Valid parameters pass through unchanged, with no upper bound on the page size. */
  lemma ValidParamsPassThrough(pageQuery: string, pageSizeQuery: string)
    ensures Atoi(pageQuery) >= 1 ==> PageParams(pageQuery, pageSizeQuery).0 == Atoi(pageQuery)
    ensures Atoi(pageSizeQuery) >= 1 ==> PageParams(pageQuery, pageSizeQuery).1 == Atoi(pageSizeQuery)
  {
  }

  /**
    Defaulting is idempotent: sending the defaulted values back as query
    parameters yields the same page and page size.
   */
  lemma PageParamsIdempotent(pageQuery: string, pageSizeQuery: string)
    ensures var r := PageParams(pageQuery, pageSizeQuery);
      PageParams(Itoa(r.0), Itoa(r.1)) == r
  {
    var r := PageParams(pageQuery, pageSizeQuery);
    AtoiItoa(r.0);
    AtoiItoa(r.1);
  }

  /** The skip the handler passes on is never negative. */
  lemma HandlerSkipNonNegative(pageQuery: string, pageSizeQuery: string)
    ensures var r := PageParams(pageQuery, pageSizeQuery);
      Skip(r.0, r.1) >= 0
  {
    var r := PageParams(pageQuery, pageSizeQuery);
    NonNegativeProduct(r.0 - 1, r.1);
  }

  /** A prefix of a newest-first listing is newest first. */
  lemma PrefixNewestFirst(rows: seq<Video>, n: nat)
    requires n <= |rows| && NewestFirst(rows)
    ensures NewestFirst(rows[..n])
  {
    forall i, j | 0 <= i < j < n ensures !LexLess(rows[..n][i].publishedAt, rows[..n][j].publishedAt) {
      assert rows[..n][i] == rows[i] && rows[..n][j] == rows[j];
    }
  }

  /**
    The response for a service result: 200 with the records unchanged, or
    500 with the fixed error body, whatever the error was.
   */
  function Respond(result: Result<seq<Video>, QueryError>): (resp: Response)
    ensures resp.status == StatusOK <==> result.Success?
    ensures resp.status == StatusOK || resp.status == StatusInternalServerError
    ensures result.Success? ==> resp.body == VideoList(result.value)
    ensures result.Failure? ==> resp.body == ErrorBody(InternalServerError)
  {
    match result
    case Success(videos) => Response(StatusOK, VideoList(videos))
    case Failure(_) => Response(StatusInternalServerError, ErrorBody(InternalServerError))
  }

  /**
    `GetPaginatedVideosHandler`: the defaulted page of the collection,
    newest first and at most `pageSize` long, or a 500 when the read fails.
    A cursor that stops early yields a 200 with the rows read so far.
   */
  method GetPaginatedVideosHandler(service: Service, pageQuery: string, pageSizeQuery: string, fault: ReadFault)
    returns (resp: Response)
    ensures var r := PageParams(pageQuery, pageSizeQuery);
      Skip(r.0, r.1) >= 0 &&
      var rows := Window(SortedView(service.collection), Skip(r.0, r.1), r.1);
      resp == if fault.FindFault? || (fault.DecodeFault? && fault.row < |rows|)
              then Response(StatusInternalServerError, ErrorBody(InternalServerError))
              else if fault.IterFault? && fault.row < |rows| then Response(StatusOK, VideoList(rows[..fault.row]))
              else Response(StatusOK, VideoList(rows))
    ensures resp.status == StatusOK ==>
      && |resp.body.videos| <= PageParams(pageQuery, pageSizeQuery).1
      && NewestFirst(resp.body.videos)
  {
    var params := PageParams(pageQuery, pageSizeQuery);
    var page, pageSize := params.0, params.1;
    var skip := Skip(page, pageSize);
    NonNegativeProduct(page - 1, pageSize);
    var rows := Window(SortedView(service.collection), skip, pageSize);
    assert Find(service.collection, skip, pageSize) == Success(rows);
    WindowOfView(service.collection, skip, pageSize);
    var result := service.GetPaginatedVideos(page, pageSize, fault);
    resp := Respond(result);
    if fault.IterFault? && fault.row < |rows| {
      PrefixNewestFirst(rows, fault.row);
    }
  }
}
