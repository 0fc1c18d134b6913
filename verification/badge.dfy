/** The worker's reply: `buildBadge` (packages/worker/src/index.ts:40-51), the
    shields.io endpoint document, and `sendBadgeResponse`
    (packages/worker/src/index.ts:53-65), which wraps it in an HTTP response.
    The document is kept as a record rather than as its `JSON.stringify` text. */
module Badge {
  import opened Base

  /** A shields.io endpoint badge. */
  datatype Badge = Badge(
    schemaVersion: int,
    labelText: string,
    message: string,
    labelColor: string,
    color: string,
    namedLogo: string,
    style: string,
    cacheSeconds: int)

  /** The response body: the badge, plus the debug lines when debugging. */
  datatype Document = Document(badge: Badge, logs: Option<seq<string>>)

  /** The options object a caller hands to `sendBadgeResponse`. */
  datatype Options = Options(status: int, headers: seq<(string, string)>)

  datatype Response = Response(status: int, headers: seq<(string, string)>, body: Document)

  /** A call either returns a response or throws (the exception leaves the
      worker, whose runtime then answers with its own error page). */
  datatype Reply = Responded(response: Response) | Threw

  const Verified: string := "#51D06A"
  const Invalid: string := "#D06A51"

  /** The badge for a message; green on success, red otherwise, everything
      else fixed. */
  function BuildBadge(message: string, success: bool): (b: Badge)
    ensures b.schemaVersion == 1 && b.labelText == "ethbinder" && b.cacheSeconds == 300
    ensures b.labelColor == "#5177D0" && b.namedLogo == "ethereum" && b.style == "flat"
    ensures b.message == message
    ensures b.color == Verified <==> success
    ensures b.color == Invalid <==> !success
  {
    Badge(1, "ethbinder", message, "#5177D0", if success then Verified else Invalid, "ethereum", "flat", 300)
  }

  /** The headers every response carries; `now` is `new Date().toUTCString()`. */
  function NoCacheHeaders(now: string): seq<(string, string)> {
    [ ("Content-Type", "application/json"),
      ("Cache-Control", "no-store, no-cache, must-revalidate, proxy-revalidate"),
      ("Pragma", "no-cache"),
      ("Expires", "0"),
      ("Last-Modified", now) ]
  }

  /** `sendBadgeResponse`.  The caller's status and headers are overwritten
      (the status always becomes 200); with no options object the assignment
      to `options.status` throws. */
  function SendBadgeResponse(message: string, success: bool, options: Option<Options>,
                             debug: bool, logs: seq<string>, now: string): (r: Reply)
    ensures r.Responded? <==> options.Some?
    ensures r.Responded? ==>
      && r.response.status == 200
      && r.response.headers == NoCacheHeaders(now)
      && r.response.body.badge == BuildBadge(message, success)
      && (r.response.body.logs.Some? <==> debug)
      && (debug ==> r.response.body.logs == Some(logs))
  {
    match options
    case None => Threw
    case Some(_) =>
      Responded(Response(200, NoCacheHeaders(now),
        Document(BuildBadge(message, success), if debug then Some(logs) else None)))
  }
}
