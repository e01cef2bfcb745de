/**
  The input side: a JMeter result file (JTL) as the converter reads it.
  Every attribute and child element the converter consults is optional;
  `None` is an attribute or element that is not in the document.
 */
module Jtl {
  import opened Wrappers

  /** An `assertionResult` child element of a sample. */
  datatype AssertionResult = AssertionResult(
    name: Option<string>,
    failure: Option<string>,
    error: Option<string>,
    failureMessage: Option<string>)

  /**
    An `httpSample` element. The numeric attributes (`ts`, `t`, `lt`, `ct`,
    `rc`, and `by` under the name `bytes`) carry their integer value;
    `methodName` and `url` are the `method` and `java.net.URL` child elements;
    `children` holds the sample's own `httpSample` child elements in
    document order.
   */
  datatype Sample = Sample(
    ts: Option<int>,
    t: Option<int>,
    lt: Option<int>,
    ct: Option<int>,
    rc: Option<int>,
    rm: Option<string>,
    lb: Option<string>,
    bytes: Option<int>,
    requestHeader: Option<string>,
    responseHeader: Option<string>,
    methodName: Option<string>,
    url: Option<string>,
    responseData: Option<string>,
    redirectLocation: Option<string>,
    cookies: Option<string>,
    assertions: seq<AssertionResult>,
    children: seq<Sample>)

  /** The `testResults` root: its `version` attribute and its top-level `httpSample` elements. */
  datatype TestResults = TestResults(version: Option<string>, samples: seq<Sample>)

  /** PHP's `(int)` of an attribute: an absent attribute reads as 0. */
  function IntAttr(a: Option<int>): int {
    a.GetOr(0)
  }

  /** PHP's `(string)` of an attribute or element: an absent one reads as the empty string. */
  function TextOf(a: Option<string>): string {
    a.GetOr("")
  }

  /** A sample with no attributes, no child elements and no nested samples. */
  const EmptySample := Sample(None, None, None, None, None, None, None, None, None,
                              None, None, None, None, None, None, [], [])
}
