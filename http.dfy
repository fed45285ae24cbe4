/**
 * The request and the captured downstream response as both middlewares see
 * them, and the action the hijack callback takes once the response ends.
 */
module Http {
  import opened Wrappers
  import opened JsText
  import opened ConditionalGet

  /** A header value JavaScript treats as true: present and not empty. */
  predicate Truthy(v: Option<string>) {
    v.Some? && v.value != ""
  }

  /** The header value under `name`, if the dictionary has one. */
  function Lookup(headers: map<string, string>, name: string): (r: Option<string>)
    ensures r.Some? <==> name in headers
    ensures r.Some? ==> r.value == headers[name]
  {
    if name in headers then Some(headers[name]) else None
  }

  /** The incoming request: its URL, its original URL and the header dictionary. */
  class Request {
    const url: string
    const originalUrl: string
    var headers: map<string, string>

    constructor (url: string, originalUrl: string, headers: map<string, string>)
      ensures this.url == url && this.originalUrl == originalUrl && this.headers == headers
    {
      this.url := url;
      this.originalUrl := originalUrl;
      this.headers := headers;
    }

    /**
     * The in-place rewrite of `req.headers` (lib/compiless.js:33-44,
     * lib/index.js:60-75): the If-None-Match tokens without the tag go,
     * the header itself goes when none is left, and If-Modified-Since goes.
     */
    method RewriteConditionalHeaders(tag: string)
      modifies this
      ensures headers == CleanConditionalHeaders(old(headers), tag)
    {
      var ifNoneMatch := Lookup(headers, IfNoneMatch);
      if Truthy(ifNoneMatch) {
        var validIfNoneMatchTokens := KeepTagged(Split(ifNoneMatch.value, ' '), tag);
        if |validIfNoneMatchTokens| > 0 {
          headers := headers[IfNoneMatch := Join(validIfNoneMatchTokens, " ")];
        } else {
          headers := headers - {IfNoneMatch};
        }
      }
      headers := headers - {IfModifiedSince};
    }
  }

  type Byte = bv8

  /** What the hijacked downstream response held when it ended. */
  datatype Downstream = Downstream(
    statusCode: int,
    contentType: Option<string>,
    etag: Option<string>,
    chunks: seq<seq<Byte>>)

  /** `Buffer.concat(chunks)`. */
  function ConcatChunks(chunks: seq<seq<Byte>>): seq<Byte> {
    if chunks == [] then [] else ConcatChunks(chunks[..|chunks| - 1]) + chunks[|chunks| - 1]
  }

  /** What the middleware does with a request and the response it captured. */
  datatype Action =
    | PassThrough
      // The request is not for this middleware: `next()` and nothing else.
    | Unhijack
      // `res.unhijack(true)`: the downstream response goes out untouched.
    | ResendStatus(status: int)
      // `res.send(res.statusCode)`: nothing was captured.
    | NotModified(validator: string)
      // `res.send(304)` with the new ETag set.
    | SendCss(contentType: string, etag: Option<string>, contentLength: nat, body: string)
      // The compiled stylesheet, with the response's ETag header as it then is.
    | SendError(contentType: string, body: string)
      // An error stylesheet; Content-Length and ETag are removed.
}
