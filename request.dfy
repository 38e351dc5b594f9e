/**
 * Request: a builder for one call to the userbot API (address, payload,
 * signing mode, an optional file) and its send step, which posts through
 * the client, accepts only HTTP 200, unwraps the {status, response}
 * envelope and maps server error codes to exception kinds.
 */
module Request {
  import opened Php
  import opened RequestErrors
  import opened Transport

  /** USE_UNSIGNED_PAYLOAD = 1 << 1, a bit of the 64-bit $mode. */
  const USE_UNSIGNED_PAYLOAD: bv64 := 2

  /** withSign's new mode: signing clears the unsigned bit, not signing sets it. */
  function SignMode(mode: bv64, needSign: bool): (r: bv64)
    ensures r & !USE_UNSIGNED_PAYLOAD == mode & !USE_UNSIGNED_PAYLOAD
    ensures (r & USE_UNSIGNED_PAYLOAD == 0) <==> needSign
  {
    if needSign then mode & !USE_UNSIGNED_PAYLOAD else mode | USE_UNSIGNED_PAYLOAD
  }

  /** exec's test for the unsigned path. */
  predicate Unsigned(mode: bv64)
  {
    mode & USE_UNSIGNED_PAYLOAD == USE_UNSIGNED_PAYLOAD
  }

  /** Setting or clearing one bit forgets whether it was set or cleared before. */
  lemma BitOverwrite(x: bv64)
    ensures (x & !USE_UNSIGNED_PAYLOAD) & !USE_UNSIGNED_PAYLOAD == x & !USE_UNSIGNED_PAYLOAD
    ensures (x | USE_UNSIGNED_PAYLOAD) & !USE_UNSIGNED_PAYLOAD == x & !USE_UNSIGNED_PAYLOAD
    ensures (x & !USE_UNSIGNED_PAYLOAD) | USE_UNSIGNED_PAYLOAD == x | USE_UNSIGNED_PAYLOAD
    ensures (x | USE_UNSIGNED_PAYLOAD) | USE_UNSIGNED_PAYLOAD == x | USE_UNSIGNED_PAYLOAD
  {
  }

  /** Each withSign call decides the mode alone: repeating it changes nothing, and the last call wins. */
  lemma SignLastWins(mode: bv64, first: bool, second: bool)
    ensures SignMode(SignMode(mode, first), second) == SignMode(mode, second)
  {
    BitOverwrite(mode);
  }

  /** exec takes the unsigned path exactly when the last withSign call was withSign(false). */
  lemma SignDecidesPath(mode: bv64, needSign: bool)
    ensures Unsigned(SignMode(mode, needSign)) <==> !needSign
  {
  }

  /** A fresh request's mode 0 is the signed path. */
  lemma FreshRequestSigned()
    ensures !Unsigned(0)
  {
  }

  /**
   * processSystemError: the bad-request table is consulted first, then the
   * in-progress table; any other code is an unexpected response. It
   * always ends in an error.
   */
  function ProcessSystemError(code: int, message: string): (e: Error)
    ensures e == BadRequest(message, code) <==> IsMyCode(BadRequestClass, code)
    ensures e == InProgress(message, code) <==> !IsMyCode(BadRequestClass, code) && IsMyCode(RequestInProgressClass, code)
    ensures e == UnexpectedResponse(message, code)
      <==> !IsMyCode(BadRequestClass, code) && !IsMyCode(RequestInProgressClass, code)
  {
    if IsMyCode(BadRequestClass, code) then BadRequest(message, code)
    else if IsMyCode(RequestInProgressClass, code) then InProgress(message, code)
    else UnexpectedResponse(message, code)
  }

  /** An array value, as the `array` return type demands. */
  predicate IsArray(v: Value)
  {
    v.List? || v.Dict?
  }

  /**
   * parseCompassResponse on the decoded body. The checks come in the
   * source's order; a message that is not a string, or an ok response that
   * is not an array, is a strict-types TypeError.
   */
  function ParseCompassResponse(body: Decoded): (r: Result<Value, Error>)
    ensures r.Success? ==>
      && body.Json? && Get(body.value, "status") == Str("ok")
      && r.value == Get(body.value, "response") && IsArray(r.value)
    ensures body.BadJson? ==> r == Failure(UnexpectedResponse("response must be json file", 0))
  {
    match body
    case BadJson => Failure(UnexpectedResponse("response must be json file", 0))
    case Json(v) =>
      if !IsSet(v, "status") then Failure(UnexpectedResponse("response has no status field", 0))
      else if !IsSet(v, "response") then Failure(UnexpectedResponse("response has no response field", 0))
      else
        var response := Get(v, "response");
        if Get(v, "status") != Str("ok") then
          if !IsSet(response, "error_code") then
            Failure(UnexpectedResponse("response is not ok, but there is error code on response data", 0))
          else
            var code := ToInt(Get(response, "error_code"));
            var message := if IsSet(response, "message") then Get(response, "message") else Str("no error message");
            if !message.Str? then Failure(TypeFault)
            else Failure(ProcessSystemError(code, message.s))
        else if !IsArray(response) then Failure(TypeFault)
        else Success(response)
  }

  /**
   * exec after the post: a post with the header table never set is a
   * TypeError; otherwise only HTTP 200 is parsed, and any other code fails
   * with that code.
   */
  function ExecResult(tableSet: bool, wire: Wire): (r: Result<Value, Error>)
  {
    if !tableSet then Failure(TypeFault)
    else match wire
    case Delivered(code, body) =>
      if code != 200 then Failure(UnexpectedResponse("response is not ok, got http ", code))
      else ParseCompassResponse(body)
    case _ => Failure(TransferError(wire))
  }

  /** send: the empty-url guard, then exec, with an in-progress error re-raised as an unexpected response. */
  function SendResult(url: string, tableSet: bool, wire: Wire): (r: Result<Value, Error>)
  {
    if url == "" then Failure(Runtime("url can not be empty"))
    else
      match ExecResult(tableSet, wire)
      case Failure(InProgress(message, code)) => Failure(UnexpectedResponse(message, code))
      case other => other
  }

  /** What goes over the wire for the request's state: the JSON text when signed, the array itself when not. */
  function SentBody(mode: bv64, payload: seq<(string, Value)>, multipart: bool): Body
  {
    if Unsigned(mode) then BodyOf(ArrayParams(payload), multipart) else JsonText(payload)
  }

  /** The header a signed request carries. */
  function Authorization(token: string): (string, string)
  {
    ("Authorization", "bearer=" + token)
  }

  class Request {
    const client: Client
    /** Credentials::getApiToken. */
    const token: string
    var url: string
    var rawPayload: seq<(string, Value)>
    /** $response: unset until a send succeeds. */
    var response: Option<Value>
    var mode: bv64

    constructor (client: Client, token: string)
      ensures this.client == client && this.token == token
      ensures url == "" && rawPayload == [] && response == None && mode == 0
    {
      this.client := client;
      this.token := token;
      url := "";
      rawPayload := [];
      response := None;
      mode := 0;
    }

    method WithSign(needSign: bool)
      modifies this
      ensures mode == SignMode(old(mode), needSign)
      ensures url == old(url) && rawPayload == old(rawPayload) && response == old(response)
    {
      mode := if needSign then mode & !USE_UNSIGNED_PAYLOAD else mode | USE_UNSIGNED_PAYLOAD;
    }

    /** withAddress: the last address wins. */
    method WithAddress(address: string)
      modifies this
      ensures url == address
      ensures mode == old(mode) && rawPayload == old(rawPayload) && response == old(response)
    {
      url := address;
    }

    /** withMessage: replaces the whole payload, a file attached earlier included. */
    method WithMessage(payload: seq<(string, Value)>)
      modifies this
      ensures rawPayload == payload
      ensures mode == old(mode) && url == old(url) && response == old(response)
    {
      rawPayload := payload;
    }

    /** withFile: the payload's "file" entry becomes the attached file; the client switches to multipart. */
    method WithFile(path: string)
      modifies this, client
      ensures rawPayload == Put(old(rawPayload), "file", File(path))
      ensures client.multipart && client.headers == old(client.headers) && client.httpCode == old(client.httpCode)
      ensures client.log == old(client.log) + [AttachFile(path)]
      ensures mode == old(mode) && url == old(url) && response == old(response)
    {
      var f := client.AttachFileAt(path);
      rawPayload := Put(rawPayload, "file", f);
    }

    /** checkResponseHttpCode. */
    method CheckResponseHttpCode() returns (e: Option<Error>)
      ensures e == if client.httpCode == 200 then None else Some(UnexpectedResponse("response is not ok, got http ", client.httpCode))
    {
      var code := client.GetHttpCode();
      if code == 200 {
        return None;
      }
      e := Some(UnexpectedResponse("response is not ok, got http ", code));
    }

    /**
     * exec: a signed request first sets the bearer header and posts the
     * encoded payload; an unsigned one posts the array, through a client
     * whose header table may never have been set.
     */
    method Exec(wire: Wire) returns (r: Result<Value, Error>)
      requires url != ""
      modifies client
      ensures r == ExecResult(!Unsigned(mode) || old(client.headers).Some?, wire)
      ensures client.headers == if Unsigned(mode) then old(client.headers) else Some(Put(TableOf(old(client.headers)), Authorization(token).0, Authorization(token).1))
      ensures client.log == old(client.log)
        + (if Unsigned(mode) then [] else [SetHeader(Authorization(token).0, Authorization(token).1)])
        + (if client.headers.Some? then [Sent(url, SentBody(mode, rawPayload, old(client.multipart)), client.headers.value)] else [])
      ensures client.multipart == (client.headers.None? && old(client.multipart))
      ensures client.httpCode == if client.headers.Some? && wire.Delivered? then wire.httpCode else old(client.httpCode)
    {
      var posted: Result<Decoded, Error>;
      if mode & USE_UNSIGNED_PAYLOAD == USE_UNSIGNED_PAYLOAD {
        posted := client.Post(url, ArrayParams(rawPayload), wire);
      } else {
        client.SetHeaderValue("Authorization", "bearer=" + token);
        posted := client.Post(url, EncodedParams(rawPayload), wire);
      }
      if posted.Failure? {
        return Failure(posted.error);
      }
      var bad := CheckResponseHttpCode();
      if bad.Some? {
        return Failure(bad.value);
      }
      r := ParseCompassResponse(posted.value);
    }

    /**
     * send: fails on an empty address before the client is touched; a
     * successful response is stored and returned.
     */
    method Send(wire: Wire) returns (r: Result<Value, Error>)
      modifies this, client
      ensures r == SendResult(old(url), !Unsigned(mode) || old(client.headers).Some?, wire)
      ensures response == if r.Success? then Some(r.value) else old(response)
      ensures url == old(url) && rawPayload == old(rawPayload) && mode == old(mode)
      ensures old(url) == "" ==>
        && client.log == old(client.log) && client.headers == old(client.headers)
        && client.multipart == old(client.multipart) && client.httpCode == old(client.httpCode)
      ensures old(url) != "" ==>
        && client.headers == (if Unsigned(mode) then old(client.headers) else Some(Put(TableOf(old(client.headers)), Authorization(token).0, Authorization(token).1)))
        && client.log == old(client.log)
          + (if Unsigned(mode) then [] else [SetHeader(Authorization(token).0, Authorization(token).1)])
          + (if client.headers.Some? then [Sent(url, SentBody(mode, rawPayload, old(client.multipart)), client.headers.value)] else [])
        && client.multipart == (client.headers.None? && old(client.multipart))
        && client.httpCode == if client.headers.Some? && wire.Delivered? then wire.httpCode else old(client.httpCode)
    {
      if url == "" {
        return Failure(Runtime("url can not be empty"));
      }
      var executed := Exec(wire);
      if executed.Failure? && executed.error.InProgress? {
        return Failure(UnexpectedResponse(executed.error.message, executed.error.code));
      }
      r := executed;
      if r.Success? {
        response := Some(r.value);
      }
    }
  }

  /**
   * getFileUploadInfo's second request: an unsigned send of the file token
   * and the file through a new client. Nothing ever set that client's header
   * table, so the post is a TypeError before anything goes out, whatever the
   * node would answer.
   */
  method UploadToNode(token: string, nodeUrl: string, fileToken: string, path: string, wire: Wire) returns (r: Result<Value, Error>)
    ensures nodeUrl == "" ==> r == Failure(Runtime("url can not be empty"))
    ensures nodeUrl != "" ==> r == Failure(TypeFault)
  {
    var client := new Client();
    var request := new Request(client, token);
    request.WithSign(false);
    request.WithAddress(nodeUrl);
    request.WithMessage([("token", Str(fileToken))]);
    request.WithFile(path);
    r := request.Send(wire);
  }

  /** An in-progress error never escapes send as itself. */
  lemma SendNeverInProgress(url: string, tableSet: bool, wire: Wire)
    ensures !(SendResult(url, tableSet, wire).Failure? && SendResult(url, tableSet, wire).error.InProgress?)
  {
  }

  /** Any HTTP code besides 200 fails with that code, whatever the body says. */
  lemma NonOkIgnoresBody(url: string, code: int, body: Decoded)
    requires url != "" && code != 200
    ensures SendResult(url, true, Delivered(code, body)) == Failure(UnexpectedResponse("response is not ok, got http ", code))
  {
  }

  /**
   * A post through a client whose header table was never set is a TypeError,
   * whatever would have come back: an unsigned send on a new client (the
   * second request of a file upload) never succeeds.
   */
  lemma UnsetTableFails(url: string, wire: Wire)
    requires url != ""
    ensures SendResult(url, false, wire) == Failure(TypeFault)
  {
  }

  /** An empty address fails before anything else, whatever would have come back. */
  lemma EmptyUrlFails(tableSet: bool, wire: Wire)
    ensures SendResult("", tableSet, wire) == Failure(Runtime("url can not be empty"))
  {
  }

  /** A successful send returns the envelope's response array, and only for status "ok". */
  lemma SendSuccess(url: string, tableSet: bool, wire: Wire)
    ensures SendResult(url, tableSet, wire).Success? <==>
      && url != "" && tableSet && wire.Delivered? && wire.httpCode == 200 && wire.body.Json?
      && Get(wire.body.value, "status") == Str("ok") && IsArray(Get(wire.body.value, "response"))
    ensures SendResult(url, tableSet, wire).Success? ==> SendResult(url, tableSet, wire).value == Get(wire.body.value, "response")
  {
  }

  /** A server error envelope with an integer code and a string message. */
  function ErrorEnvelope(status: string, code: int, message: string): Decoded
  {
    Json(Dict(map["status" := Str(status), "response" := Dict(map["error_code" := Int(code), "message" := Str(message)])]))
  }

  /**
   * The classification a caller of send sees for a server error: codes
   * 1, 2, 3, 4 and 8 arrive as a bad request, everything else (7, the
   * in-progress code, included) as an unexpected response; both carry the
   * server's code and message.
   */
  lemma ServerErrorClassification(url: string, status: string, code: int, message: string)
    requires url != "" && status != "ok"
    ensures SendResult(url, true, Delivered(200, ErrorEnvelope(status, code, message)))
         == if code in {1, 2, 3, 4, 8} then Failure(BadRequest(message, code)) else Failure(UnexpectedResponse(message, code))
  {
    EnvelopeParse(status, code, message);
    BadRequestClaims(code);
    InProgressClaims(code);
  }

  /** parseCompassResponse reads the code and the message out of a server error. */
  lemma EnvelopeParse(status: string, code: int, message: string)
    requires status != "ok"
    ensures ParseCompassResponse(ErrorEnvelope(status, code, message)) == Failure(ProcessSystemError(code, message))
  {
    var v := ErrorEnvelope(status, code, message).value;
    var response := Dict(map["error_code" := Int(code), "message" := Str(message)]);
    assert Get(v, "status") == Str(status) && Get(v, "response") == response;
    assert Get(response, "error_code") == Int(code) && Get(response, "message") == Str(message);
  }

  /** Without a message the server error carries "no error message". */
  lemma DefaultMessage(url: string, code: int)
    requires url != ""
    ensures SendResult(url, true, Delivered(200, Json(Dict(map["status" := Str("error"), "response" := Dict(map["error_code" := Int(code)])]))))
         == if code in {1, 2, 3, 4, 8} then Failure(BadRequest("no error message", code)) else Failure(UnexpectedResponse("no error message", code))
  {
    NoMessageParse(code);
    BadRequestClaims(code);
    InProgressClaims(code);
  }

  /** parseCompassResponse falls back to "no error message" when the server error has none. */
  lemma NoMessageParse(code: int)
    ensures ParseCompassResponse(Json(Dict(map["status" := Str("error"), "response" := Dict(map["error_code" := Int(code)])])))
         == Failure(ProcessSystemError(code, "no error message"))
  {
    var response := Dict(map["error_code" := Int(code)]);
    var v := Dict(map["status" := Str("error"), "response" := response]);
    assert Get(v, "status") == Str("error") && Get(v, "response") == response;
    assert Get(response, "error_code") == Int(code) && !IsSet(response, "message");
  }

  /** The envelope checks come in order: a missing status is reported even when the response is missing too. */
  lemma EnvelopeOrder(v: Value)
    ensures !IsSet(v, "status") ==> ParseCompassResponse(Json(v)) == Failure(UnexpectedResponse("response has no status field", 0))
    ensures IsSet(v, "status") && !IsSet(v, "response") ==> ParseCompassResponse(Json(v)) == Failure(UnexpectedResponse("response has no response field", 0))
    ensures IsSet(v, "status") && IsSet(v, "response") && Get(v, "status") != Str("ok") && !IsSet(Get(v, "response"), "error_code")
      ==> ParseCompassResponse(Json(v)) == Failure(UnexpectedResponse("response is not ok, but there is error code on response data", 0))
  {
  }
}
