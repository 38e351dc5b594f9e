/**
 * The HTTP client a Request posts through (Curl). Only what Request relies
 * on is kept: the header table, the multipart flag that attachFile sets and
 * the next post clears, the HTTP code of the last delivered response, and
 * the post itself. What the network answers is a parameter of Post; a
 * ghost log records every call that reaches the client.
 */
module Transport {
  import opened Php
  import opened RequestErrors

  /** What Request hands to post: its payload array, or that array already encoded as JSON text. */
  datatype Params = ArrayParams(fields: seq<(string, Value)>) | EncodedParams(fields: seq<(string, Value)>)

  /**
   * The request body as it goes out: an array is form-encoded by
   * http_build_query unless a file was attached (then it goes out as
   * multipart fields); encoded text goes out as it is. The JSON text that
   * PayloadHandler::encode makes of a payload is kept symbolic.
   */
  datatype Body = Query(fields: seq<(string, Value)>) | Multipart(fields: seq<(string, Value)>) | JsonText(fields: seq<(string, Value)>)

  /** What the network does with one request: a response, already run through json_decode, or a curl failure. */
  datatype Wire = Delivered(httpCode: int, body: Decoded) | CurlError(reason: string) | NoResponse

  /** The calls that reach the client, in order. */
  datatype Call =
    | SetHeader(key: string, value: string)
    | AttachFile(path: string)
    | Sent(url: string, body: Body, headers: seq<(string, string)>)

  /** post's choice of body for its params. */
  function BodyOf(params: Params, multipart: bool): (b: Body)
    ensures params.EncodedParams? ==> b == JsonText(params.fields)
    ensures params.ArrayParams? ==> b == if multipart then Multipart(params.fields) else Query(params.fields)
  {
    match params
    case EncodedParams(fields) => JsonText(fields)
    case ArrayParams(fields) => if multipart then Multipart(fields) else Query(fields)
  }

  /** The error post raises for a failed transfer. */
  function TransferError(wire: Wire): (e: Error)
    requires !wire.Delivered?
    ensures e.UnexpectedResponse? && e.code == 0
  {
    match wire
    case CurlError(reason) => UnexpectedResponse("curl error occurred: " + reason, 0)
    case NoResponse => UnexpectedResponse("response is empty", 0)
  }

  /** The header table as an array: a table never set reads as no headers. */
  function TableOf(headers: Option<seq<(string, string)>>): seq<(string, string)>
  {
    if headers.Some? then headers.value else []
  }

  class Client {
    /**
     * $headers: header name to value, in the order first set. The property
     * has no initial value, so it is null (None) until the first setHeader.
     */
    var headers: Option<seq<(string, string)>>
    /** The USE_MULTIPART_FOR_DATA_MODE bit of $mode. */
    var multipart: bool
    /** $response_code: the HTTP code of the last delivered response, 0 before any. */
    var httpCode: int
    ghost var log: seq<Call>

    constructor ()
      ensures headers == None && !multipart && httpCode == 0 && log == []
    {
      headers := None;
      multipart := false;
      httpCode := 0;
      log := [];
    }

    /** setHeader: a later value for the same name replaces the earlier one in place; a null table becomes an array. */
    method SetHeaderValue(key: string, value: string)
      modifies this
      ensures headers == Some(Put(TableOf(old(headers)), key, value))
      ensures Lookup(headers.value, key) == Some(value)
      ensures multipart == old(multipart) && httpCode == old(httpCode)
      ensures log == old(log) + [SetHeader(key, value)]
    {
      headers := Some(Put(TableOf(headers), key, value));
      log := log + [SetHeader(key, value)];
    }

    /** attachFile: switches the next post to multipart and returns the file handle. */
    method AttachFileAt(path: string) returns (f: Value)
      modifies this
      ensures f == File(path)
      ensures multipart && headers == old(headers) && httpCode == old(httpCode)
      ensures log == old(log) + [AttachFile(path)]
    {
      multipart := true;
      log := log + [AttachFile(path)];
      f := File(path);
    }

    /** getHttpCode. */
    method GetHttpCode() returns (code: int)
      ensures code == httpCode
    {
      code := httpCode;
    }

    /**
     * post: count() of a header table that was never set is a TypeError,
     * raised before anything is sent; then an empty url fails before
     * sending; otherwise the request goes out, the multipart flag is
     * cleared, and a delivered response sets the HTTP code and yields the
     * decoded body.
     */
    method Post(url: string, params: Params, wire: Wire) returns (r: Result<Decoded, Error>)
      modifies this
      ensures headers.None? ==> r == Failure(TypeFault) && multipart == old(multipart) && log == old(log)
      ensures headers.Some? && url == "" ==> r == Failure(BadRequest("empty url passes", 0)) && multipart == old(multipart) && log == old(log)
      ensures headers.Some? && url != "" ==> !multipart && log == old(log) + [Sent(url, BodyOf(params, old(multipart)), headers.value)]
      ensures headers.Some? && url != "" && wire.Delivered? ==> r == Success(wire.body) && httpCode == wire.httpCode
      ensures headers.Some? && url != "" && !wire.Delivered? ==> r == Failure(TransferError(wire)) && httpCode == old(httpCode)
      ensures (headers.None? || url == "") ==> httpCode == old(httpCode)
      ensures headers == old(headers)
    {
      if headers.None? {
        return Failure(TypeFault);
      }
      if url == "" {
        return Failure(BadRequest("empty url passes", 0));
      }
      log := log + [Sent(url, BodyOf(params, multipart), headers.value)];
      multipart := false;
      match wire
      case Delivered(code, body) =>
        httpCode := code;
        r := Success(body);
      case _ =>
        r := Failure(TransferError(wire));
    }
  }
}
