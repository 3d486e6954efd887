/**
 * The access-logging middleware: it drains the request body to log it, hands
 * an equivalent request on, and records the status of whatever comes back,
 * leaving the response itself alone.
 */
module AccessLogging {

  import opened Wrappers
  import opened Http
  import Utf8
  import Paths
  import Mime
  import StaticFiles

  /** The status a record holds until the response is known: `StatusCode::OK.as_u16()`. */
  const PlaceholderStatus: U16 := 200

  /** A record as it is serialised and emitted: the four fields of `AccessLog`. */
  datatype LogEntry = LogEntry(uri: string, httpMethod: string, reqBody: string, statusCode: U16)

  /** `AccessLog`: built once per request, its status overwritten when the response is known. */
  class AccessLog {
    var uri: string
    var httpMethod: string
    var reqBody: string
    var statusCode: U16

    constructor (uri: string, httpMethod: string, reqBody: string, statusCode: U16)
      ensures this.uri == uri && this.httpMethod == httpMethod
      ensures this.reqBody == reqBody && this.statusCode == statusCode
    {
      this.uri := uri;
      this.httpMethod := httpMethod;
      this.reqBody := reqBody;
      this.statusCode := statusCode;
    }

    /** The record's current field values, as `serde_json::to_string` would write them. */
    function Entry(): LogEntry
      reads this
    {
      LogEntry(uri, httpMethod, reqBody, statusCode)
    }
  }

  /** The rest of the chain, as `Next::run` reaches it; a fault there unwinds through the middleware. */
  type Next = Request -> Result<Response, Fault>

  /**
   * `extract_req_res_info`. A body that is not UTF-8 stops the request before
   * anything is forwarded or logged. Otherwise the downstream handler gets a
   * request equal to the original, its result is returned untouched, and the
   * emitted record carries the request's URI, method and decoded body with the
   * status of the response returned; a downstream fault emits nothing.
   */
  method ExtractReqResInfo(req: Request, next: Next) returns (res: Result<Response, Fault>, emitted: Option<LogEntry>)
    ensures Utf8.Decode(req.body).None? ==> res == Failure(BodyDecodePanic) && emitted.None?
    ensures Utf8.Decode(req.body).Some? ==> res == next(req)
    ensures emitted.Some? <==> res.Success?
    ensures emitted.Some? ==>
              && emitted.value.uri == req.parts.uri
              && emitted.value.httpMethod == req.parts.httpMethod
              && Utf8.Decode(req.body) == Some(emitted.value.reqBody)
              && Utf8.Encode(emitted.value.reqBody) == req.body
              && emitted.value.statusCode == res.value.status
  {
    var parts, reqBodyBytes := req.parts, req.body;
    var uri := parts.uri;
    var httpMethod := parts.httpMethod;
    var reqBody := Utf8.Decode(reqBodyBytes);
    if reqBody.None? {
      return Failure(BodyDecodePanic), None;
    }
    Utf8.DecodeThenEncode(reqBodyBytes);

    var accessLog := new AccessLog(uri, httpMethod, reqBody.value, PlaceholderStatus);
    var forwarded := Request(parts, reqBodyBytes);
    res := next(forwarded);
    if res.Failure? {
      return res, None;
    }
    accessLog.statusCode := res.value.status;
    emitted := Some(accessLog.Entry());
  }

  /**
   * The router: the middleware layered over the wildcard route. `capture`
   * is the router's match of the request (the path segment the wildcard
   * captures, or None when the route or method does not match) and
   * `fallback` the router's own answer then.
   */
  method Serve(req: Request, capture: Request -> Option<string>, fallback: Request -> Response,
               setting: StaticFiles.AppSetting, fs: StaticFiles.FileSystem, lookup: Mime.MimeLookup)
    returns (res: Result<Response, Fault>, emitted: Option<LogEntry>)
    ensures Utf8.Decode(req.body).None? ==> res == Failure(BodyDecodePanic) && emitted.None?
    ensures Utf8.Decode(req.body).Some? && capture(req).Some? ==>
              res == StaticFiles.StaticPathHandler(capture(req).value, setting, fs, lookup)
    ensures Utf8.Decode(req.body).Some? && capture(req).None? ==> res == Success(fallback(req))
    ensures emitted.Some? <==> res.Success?
    ensures emitted.Some? ==> emitted.value.statusCode == res.value.status
    ensures Utf8.Decode(req.body).Some? && capture(req).Some?
            && Paths.CandidatePath(setting.staticDir, capture(req).value) !in fs ==>
              emitted.Some? && emitted.value.statusCode == StatusNotFound as U16
  {
    var route := (r: Request) =>
      match capture(r)
      case Some(path) => StaticFiles.StaticPathHandler(path, setting, fs, lookup)
      case None => Success(fallback(r));
    res, emitted := ExtractReqResInfo(req, route);
    if capture(req).Some? {
      StaticFiles.NotFoundIffMissing(capture(req).value, setting, fs, lookup);
    }
  }
}
