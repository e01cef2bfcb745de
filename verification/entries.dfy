/**
  The per-sample records: `output_page`, `output_entry` and the
  `output_entry_*` helpers that fill an entry's timings, request, response,
  content and assertions from one sample, with their defaults for absent
  attributes and elements.
 */
module Entries {
  import opened Wrappers
  import opened Text
  import opened Jtl
  import opened Har
  import opened Headers
  import opened Cookies
  import opened Timestamp

  /** The page id `"page_<n>"` an index is written as. */
  function PageId(id: nat): (p: string)
    ensures |p| > 5 && p[..5] == "page_"
    ensures p[5..] == NatToDecimal(id)
  {
    "page_" + NatToDecimal(id)
  }

  /** Distinct indices give distinct page ids. */
  lemma PageIdInjective(a: nat, b: nat)
    requires PageId(a) == PageId(b)
    ensures a == b
  {
    assert NatToDecimal(a) == PageId(a)[5..];
    NatToDecimalInjective(a, b);
  }

  /** `output_entry_timings`. */
  function OutputEntryTimings(s: Sample): (tm: Timings)
    ensures tm.blocked == -1 && tm.dns == -1 && tm.send == -1
    ensures tm.connect == s.ct.GetOr(-1)
    ensures tm.connect + tm.wait == IntAttr(s.lt)
    ensures tm.connect + tm.wait + tm.receive == IntAttr(s.t)
  {
    var connect := if s.ct.Some? then s.ct.value else -1;
    Timings(-1, -1, connect, -1, IntAttr(s.lt) - connect, IntAttr(s.t) - IntAttr(s.lt))
  }

  /** The entry's `time`: the sum of the timings, with `dns` and `connect` counted only when positive. */
  function TotalTime(tm: Timings): int {
    (if tm.dns > 0 then tm.dns else 0) + (if tm.connect > 0 then tm.connect else 0)
      + tm.send + tm.wait + tm.receive
  }

  /**
    What the total comes to: the sample's elapsed time `t` when `ct` is
    absent, one less when `ct` is present and not negative, and
    `t - 1 - ct` when `ct` is negative (a negative connect time is not
    counted but still subtracted from `wait`).
   */
  lemma {:induction false} TotalTimeValue(s: Sample)
    ensures s.ct.None? ==> TotalTime(OutputEntryTimings(s)) == IntAttr(s.t)
    ensures s.ct.Some? && s.ct.value >= 0 ==> TotalTime(OutputEntryTimings(s)) == IntAttr(s.t) - 1
    ensures s.ct.Some? && s.ct.value < 0 ==> TotalTime(OutputEntryTimings(s)) == IntAttr(s.t) - 1 - s.ct.value
  {
    var tm := OutputEntryTimings(s);
    assert tm.connect + tm.wait + tm.receive == IntAttr(s.t);
  }

  /** The first eight characters of a header block (all of it when shorter): PHP's `substr($s, 0, 8)`. */
  function StatusLinePrefix(block: string): (v: string)
    ensures |v| == if |block| < 8 then |block| else 8
    ensures block == v + block[|v|..]
  {
    if |block| <= 8 then block else block[..8]
  }

  /** `strlen` of a header block, or -1 when the element is absent. */
  function HeadersSize(block: Option<string>): (n: int)
    ensures n == -1 <==> block.None?
    ensures block.Some? ==> n == |block.value|
  {
    match block
    case None => -1
    case Some(text) => |text|
  }

  /** `output_entry_request`. */
  function OutputEntryRequest(s: Sample): (q: Request)
    ensures s.methodName.None? ==> q.methodName == "N/A"
    ensures s.methodName.Some? ==> q.methodName == s.methodName.value
    ensures s.url.Some? ==> q.url == s.url.value
    ensures s.url.None? ==> q.url == "N/A"
    ensures s.responseHeader.None? ==> q.httpVersion == "N/A"
    ensures s.responseHeader.Some? ==> q.httpVersion == StatusLinePrefix(s.responseHeader.value)
    ensures q.cookies == [] && q.queryString == [] && q.bodySize == -1
    ensures q.headers == ConvertHeaders(s.requestHeader)
    ensures q.headersSize == HeadersSize(s.requestHeader)
  {
    Request(
      s.methodName.GetOr("N/A"),
      s.url.GetOr("N/A"),
      if s.responseHeader.Some? then StatusLinePrefix(s.responseHeader.value) else "N/A",
      [],
      ConvertHeaders(s.requestHeader),
      [],
      HeadersSize(s.requestHeader),
      -1)
  }

  /** `compression`: `None` (the integer 0) without a `Content-Encoding` header, else whether it is gzip or deflate. */
  function Compression(hs: seq<NameValue>): (c: Option<bool>)
    requires DistinctNames(hs)
    ensures c.None? <==> "Content-Encoding" !in Names(hs)
    ensures c == Some(true) <==>
      NameValue("Content-Encoding", "gzip") in hs || NameValue("Content-Encoding", "deflate") in hs
  {
    EncodingLookup(hs);
    match Lookup(hs, "Content-Encoding")
    case None => None
    case Some(v) => Some(v == "gzip" || v == "deflate")
  }

  /** `output_entry_content`, given the response's parsed headers. */
  function OutputEntryContent(s: Sample, hs: seq<NameValue>): (c: Content)
    requires DistinctNames(hs)
    ensures c.size.HeaderText? <==> "Content-Length" in Names(hs)
    ensures c.size.HeaderText? ==> NameValue("Content-Length", c.size.text) in hs
    ensures c.size.ByteCount? ==> c.size.bytes == |TextOf(s.responseData)|
    ensures c.compression == Compression(hs)
    ensures "Content-Type" !in Names(hs) ==> c.mimeType == ""
    ensures "Content-Type" in Names(hs) ==> NameValue("Content-Type", c.mimeType) in hs
    ensures s.responseData.Some? ==> c.text == s.responseData.value
    ensures s.responseData.None? ==> c.text == "Content not available"
  {
    Content(
      match Lookup(hs, "Content-Length")
      case Some(v) => HeaderText(v)
      case None => ByteCount(|TextOf(s.responseData)|),
      Compression(hs),
      Lookup(hs, "Content-Type").GetOr(""),
      if s.responseData.Some? then s.responseData.value else "Content not available")
  }

  /** `output_entry_response`. */
  function OutputEntryResponse(s: Sample): (r: Response)
    ensures r.status == IntAttr(s.rc) && r.statusText == TextOf(s.rm)
    ensures r.httpVersion == StatusLinePrefix(TextOf(s.responseHeader))
    ensures r.cookies == OutputEntryCookies(s.cookies)
    ensures r.headers == ConvertHeaders(s.responseHeader)
    ensures r.content == OutputEntryContent(s, r.headers)
    ensures r.redirectURL == TextOf(s.redirectLocation)
    ensures r.headersSize == HeadersSize(s.responseHeader)
    ensures r.bodySize == IntAttr(s.bytes)
  {
    var hs := ConvertHeaders(s.responseHeader);
    Response(
      IntAttr(s.rc),
      TextOf(s.rm),
      StatusLinePrefix(TextOf(s.responseHeader)),
      OutputEntryCookies(s.cookies),
      hs,
      OutputEntryContent(s, hs),
      TextOf(s.redirectLocation),
      HeadersSize(s.responseHeader),
      IntAttr(s.bytes))
  }

  /** PHP's `(string) $x == 'true' ? 1 : 0`. */
  function Flag(text: Option<string>): (f: int)
    ensures f == 0 || f == 1
    ensures f == 1 <==> text == Some("true")
  {
    if TextOf(text) == "true" then 1 else 0
  }

  /** `output_entry_assertions`: one record per `assertionResult` element, in order. */
  function OutputEntryAssertions(rs: seq<AssertionResult>): (out: seq<AssertionOut>)
    ensures |out| == |rs|
    ensures forall i :: 0 <= i < |rs| ==> out[i].name == TextOf(rs[i].name) && out[i].message == TextOf(rs[i].failureMessage)
    ensures forall i :: 0 <= i < |rs| ==> (out[i].failure == 1 <==> rs[i].failure == Some("true"))
    ensures forall i :: 0 <= i < |rs| ==> (out[i].failure == 0 <==> rs[i].failure != Some("true"))
    ensures forall i :: 0 <= i < |rs| ==> (out[i].error == 1 <==> rs[i].error == Some("true"))
    ensures forall i :: 0 <= i < |rs| ==> (out[i].error == 0 <==> rs[i].error != Some("true"))
  {
    seq(|rs|, i requires 0 <= i < |rs| =>
      AssertionOut(TextOf(rs[i].name), Flag(rs[i].failure), Flag(rs[i].error), TextOf(rs[i].failureMessage)))
  }

  /** `output_entry` for a sample on the page with index `id`. */
  function OutputEntry(s: Sample, id: nat, fmt: int -> string): (e: Entry)
    ensures e.pageref == PageId(id)
    ensures e.startedDateTime == ConvertTimestamp(IntAttr(s.ts), fmt)
    ensures e.request == OutputEntryRequest(s) && e.response == OutputEntryResponse(s)
    ensures e.cache == EmptyCache
    ensures e.timings == OutputEntryTimings(s)
    ensures s.ct.None? ==> e.time == IntAttr(s.t)
    ensures s.ct.Some? && s.ct.value >= 0 ==> e.time == IntAttr(s.t) - 1
    ensures s.ct.Some? && s.ct.value < 0 ==> e.time == IntAttr(s.t) - 1 - s.ct.value
    ensures e.assertions == OutputEntryAssertions(s.assertions)
  {
    var tm := OutputEntryTimings(s);
    TotalTimeValue(s);
    Entry(
      PageId(id),
      ConvertTimestamp(IntAttr(s.ts), fmt),
      OutputEntryRequest(s),
      OutputEntryResponse(s),
      EmptyCache,
      tm,
      TotalTime(tm),
      OutputEntryAssertions(s.assertions))
  }

  /** `output_page` for a top-level sample with index `id`. */
  function OutputPage(s: Sample, id: nat, fmt: int -> string): (p: Page)
    ensures p.id == PageId(id)
    ensures p.title == TextOf(s.lb)
    ensures p.startedDateTime == ConvertTimestamp(IntAttr(s.ts), fmt)
    ensures p.pageTimings == PageTimings(IntAttr(s.lt), IntAttr(s.t))
  {
    Page(PageId(id), TextOf(s.lb), ConvertTimestamp(IntAttr(s.ts), fmt), PageTimings(IntAttr(s.lt), IntAttr(s.t)))
  }

  /** The timings of a sample with `lt` 500, `t` 800 and no `ct`: wait 501, receive 300, time 800. */
  lemma TimingExample(s: Sample)
    requires s.lt == Some(500) && s.t == Some(800) && s.ct.None?
    ensures OutputEntryTimings(s) == Timings(-1, -1, -1, -1, 501, 300)
    ensures TotalTime(OutputEntryTimings(s)) == 800
  {
  }

  /** A sample carrying nothing at all still yields a complete entry, made of defaults. */
  lemma EmptySampleEntry(id: nat, fmt: int -> string)
    ensures OutputEntry(EmptySample, id, fmt).request == Request("N/A", "N/A", "N/A", [], [], [], -1, -1)
    ensures OutputEntry(EmptySample, id, fmt).response
      == Response(0, "", "", [], [], Content(ByteCount(0), None, "", "Content not available"), "", -1, 0)
    ensures OutputEntry(EmptySample, id, fmt).timings == Timings(-1, -1, -1, -1, 1, 0)
    ensures OutputEntry(EmptySample, id, fmt).time == 0
    ensures OutputEntry(EmptySample, id, fmt).assertions == []
  {
    EmptySampleRequest();
    EmptySampleResponse();
  }

  lemma EmptySampleRequest()
    ensures OutputEntryRequest(EmptySample) == Request("N/A", "N/A", "N/A", [], [], [], -1, -1)
  {
  }

  lemma EmptySampleResponse()
    ensures OutputEntryResponse(EmptySample)
      == Response(0, "", "", [], [], Content(ByteCount(0), None, "", "Content not available"), "", -1, 0)
  {
    assert StatusLinePrefix("") == "";
  }

  /**
    The request and the response report the same `httpVersion` whenever the
    sample has a response header block: the first eight characters of it.
   */
  lemma HttpVersionShared(s: Sample)
    requires s.responseHeader.Some?
    ensures OutputEntryRequest(s).httpVersion == OutputEntryResponse(s).httpVersion
    ensures |s.responseHeader.value| >= 8 ==> OutputEntryRequest(s).httpVersion == s.responseHeader.value[..8]
  {
  }

  /**
    For a response header block as JMeter records it, a status line without a
    colon followed by one well-formed header per line, `compression` is true exactly when one of the headers is
    `Content-Encoding: gzip` or `Content-Encoding: deflate`, and absent
    exactly when no header is named `Content-Encoding`.
   */
  lemma CompressionOfBlock(s: Sample, status: string, hs: seq<NameValue>)
    requires ':' !in status && '\n' !in status
    requires DistinctNames(hs)
    requires forall i :: 0 <= i < |hs| ==> WellFormedHeader(hs[i])
    requires s.responseHeader == Some(Join([status] + RenderLines(hs), '\n'))
    ensures OutputEntryResponse(s).content.compression == Some(true)
      <==> NameValue("Content-Encoding", "gzip") in hs || NameValue("Content-Encoding", "deflate") in hs
    ensures OutputEntryResponse(s).content.compression.None? <==> "Content-Encoding" !in Names(hs)
  {
    StatusBlockRoundTrip(status, hs);
  }

  lemma EncodingLookup(hs: seq<NameValue>)
    requires DistinctNames(hs)
    ensures NameValue("Content-Encoding", "gzip") in hs ==> Lookup(hs, "Content-Encoding") == Some("gzip")
    ensures NameValue("Content-Encoding", "deflate") in hs ==> Lookup(hs, "Content-Encoding") == Some("deflate")
  {
    if NameValue("Content-Encoding", "gzip") in hs {
      DistinctLookup(hs, NameValue("Content-Encoding", "gzip"));
    }
    if NameValue("Content-Encoding", "deflate") in hs {
      DistinctLookup(hs, NameValue("Content-Encoding", "deflate"));
    }
  }

  /** In a list with distinct names, looking up a member's name finds its value. */
  lemma {:induction false} DistinctLookup(hs: seq<NameValue>, h: NameValue)
    requires DistinctNames(hs) && h in hs
    ensures Lookup(hs, h.name) == Some(h.value)
  {
    var v := Lookup(hs, h.name);
    assert h.name in Names(hs) by {
      var k :| 0 <= k < |hs| && hs[k] == h;
      NameIn(hs, k);
    }
    var i :| 0 <= i < |hs| && hs[i] == NameValue(h.name, v.value);
    var j :| 0 <= j < |hs| && hs[j] == h;
    assert i == j;
  }
}
