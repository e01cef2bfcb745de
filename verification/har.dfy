/**
  The output side: the HTTP Archive (HAR 1.1) records the converter emits,
  as values rather than JSON text.
 */
module Har {
  import opened Wrappers

  /** A `{name, value}` pair of the `headers` lists. */
  datatype NameValue = NameValue(name: string, value: string)

  datatype Cookie = Cookie(name: string, value: string, path: string, domain: string)

  /** The per-phase timings in milliseconds; -1 means "not known". */
  datatype Timings = Timings(blocked: int, dns: int, connect: int, send: int, wait: int, receive: int)

  datatype Request = Request(
    methodName: string,
    url: string,
    httpVersion: string,
    cookies: seq<Cookie>,
    headers: seq<NameValue>,
    queryString: seq<NameValue>,
    headersSize: int,
    bodySize: int)

  /**
    `content.size`: the `Content-Length` header's text when that header is
    present, otherwise the byte length of the response body.
   */
  datatype Size = HeaderText(text: string) | ByteCount(bytes: nat)

  /**
    `compression` is `Some(b)` when a `Content-Encoding` header is present and
    `None` when it is absent, in which case the emitted JSON value is the
    integer 0 rather than a boolean.
   */
  datatype Content = Content(size: Size, compression: Option<bool>, mimeType: string, text: string)

  datatype Response = Response(
    status: int,
    statusText: string,
    httpVersion: string,
    cookies: seq<Cookie>,
    headers: seq<NameValue>,
    content: Content,
    redirectURL: string,
    headersSize: int,
    bodySize: int)

  /** The cache record is always empty. */
  datatype Cache = EmptyCache

  /** One `_assertions` record; `failure` and `error` are 0 or 1. */
  datatype AssertionOut = AssertionOut(name: string, failure: int, error: int, message: string)

  datatype PageTimings = PageTimings(onLoad: int, onContentLoad: int)

  datatype Page = Page(id: string, title: string, startedDateTime: string, pageTimings: PageTimings)

  datatype Entry = Entry(
    pageref: string,
    startedDateTime: string,
    request: Request,
    response: Response,
    cache: Cache,
    timings: Timings,
    time: int,
    assertions: seq<AssertionOut>)

  datatype Creator = Creator(name: string, version: string)

  datatype Browser = Browser(name: string, version: string)

  datatype Log = Log(
    version: string,
    creator: Creator,
    browser: Browser,
    pages: seq<Page>,
    entries: seq<Entry>)
}
