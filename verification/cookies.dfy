/**
  `output_entry_cookies`: every match of
      \s*([^\$]\w*)=([^;]+);\s*\$Path=([^;]*);\s*\$Domain=([^;]+);?\s*
  in the sample's `cookies` text, found left to right as `preg_match_all`
  does, yields one cookie record. The pattern has no anchors, so a match
  attempt depends only on the text from its start position onwards; the
  scanner therefore works on suffixes. Text where no match starts is skipped
  one character at a time.

  Only two of the leading `\s*`'s backtracking choices can succeed: the
  name starts right after the whole whitespace run, or, when the character
  after the run is `=`, the name is the run's last whitespace character.
  All later groups are followed by a character they cannot contain, so they
  never backtrack.
 */
module Cookies {
  import opened Wrappers
  import opened Text
  import opened Har

  /**
    `([^;]+);` (or `([^;]*);` when `allowEmpty`): the text up to the next
    `;` and the text after that `;`.
   */
  function FieldThenSemicolon(t: string, allowEmpty: bool): (r: Option<(string, string)>)
    ensures ';' !in t ==> r.None?
    ensures r.Some? ==> ';' !in r.value.0 && |r.value.1| < |t|
    ensures r.Some? && !allowEmpty ==> |r.value.0| >= 1
  {
    var k := IndexOf(t, ';');
    if k == |t| || (k == 0 && !allowEmpty) then None
    else Some((t[..k], t[k + 1..]))
  }

  lemma FieldThenSemicolonOf(f: string, rest: string, allowEmpty: bool)
    requires ';' !in f
    requires allowEmpty || |f| >= 1
    ensures FieldThenSemicolon(f + (";" + rest), allowEmpty) == Some((f, rest))
  {
    var t := f + (";" + rest);
    assert t == f + [';'] + rest;
    IndexOfAfter(f, ';', rest);
    assert t[..|f|] == f;
    assert t[|f| + 1..] == rest;
  }

  /** `\s*` followed by the literal `lit`: the text after the literal. */
  function SpaceThenLiteral(t: string, lit: string): (r: Option<string>)
    ensures r.Some? ==> |r.value| + |lit| <= |t|
  {
    var u := t[Span(t, IsSpace)..];
    if |u| >= |lit| && u[..|lit|] == lit then Some(u[|lit|..]) else None
  }

  lemma SpaceThenLiteralOf(ws: string, lit: string, rest: string)
    requires AllSpace(ws)
    requires |lit| >= 1 && !IsSpace(lit[0])
    ensures SpaceThenLiteral(ws + (lit + rest), lit) == Some(rest)
  {
    var t := ws + (lit + rest);
    SpanAppend(ws, lit + rest, IsSpace);
    SpanStops(lit + rest, IsSpace);
    assert t[|ws|..] == lit + rest;
    assert (lit + rest)[..|lit|] == lit;
    assert (lit + rest)[|lit|..] == rest;
  }

  /** The facts every match guarantees about the record it yields. */
  predicate MatchedCookie(c: Cookie) {
    && NameShape(c.name)
    && |c.value| >= 1 && ';' !in c.value
    && ';' !in c.path
    && |c.domain| >= 1 && ';' !in c.domain
  }

  /**
    The pattern after the name's `=`: value, `$Path`, `$Domain`, an optional
    `;` and trailing whitespace. Yields the record and the text after the match.
   */
  function MatchTail(name: string, t: string): (r: Option<(Cookie, string)>)
    ensures r.Some? ==> r.value.0.name == name
    ensures r.Some? ==> |r.value.0.value| >= 1 && ';' !in r.value.0.value
    ensures r.Some? ==> ';' !in r.value.0.path
    ensures r.Some? ==> |r.value.0.domain| >= 1 && ';' !in r.value.0.domain
    ensures r.Some? ==> |r.value.1| < |t|
    ensures ';' !in t ==> r.None?
  {
    match FieldThenSemicolon(t, false)
    case None => None
    case Some((value, t1)) =>
      match SpaceThenLiteral(t1, "$Path=")
      case None => None
      case Some(t2) => MatchPathOn(name, value, t2)
  }

  /** The pattern from `$Path=`'s value onwards. */
  function MatchPathOn(name: string, value: string, t: string): (r: Option<(Cookie, string)>)
    ensures r.Some? ==> r.value.0.name == name && r.value.0.value == value
    ensures r.Some? ==> ';' !in r.value.0.path
    ensures r.Some? ==> |r.value.0.domain| >= 1 && ';' !in r.value.0.domain
    ensures r.Some? ==> |r.value.1| < |t|
  {
    match FieldThenSemicolon(t, true)
    case None => None
    case Some((path, t3)) =>
      match SpaceThenLiteral(t3, "$Domain=")
      case None => None
      case Some(t4) =>
        match MatchDomain(t4)
        case None => None
        case Some((domain, rest)) => Some((Cookie(name, value, path, domain), rest))
  }

  /** `([^;]+);?\s*`: the domain and the text after the match. */
  function MatchDomain(t: string): (r: Option<(string, string)>)
    ensures r.Some? ==> |r.value.0| >= 1 && ';' !in r.value.0 && |r.value.1| < |t|
  {
    var d := IndexOf(t, ';');
    if d == 0 then None
    else
      var t5 := if d < |t| then t[d + 1..] else [];
      Some((t[..d], t5[Span(t5, IsSpace)..]))
  }

  /** A name of one character other than `$` followed by word characters. */
  predicate NameShape(name: string) {
    |name| >= 1 && name[0] != '$' && forall i :: 1 <= i < |name| ==> IsWordChar(name[i])
  }

  /**
    The leading `\s*` takes the whole whitespace run (of length `w`), then
    `[^\$]\w*` and `=`.
   */
  function NameAfterRun(t: string, w: nat): (r: Option<(Cookie, string)>)
    requires w <= |t|
    ensures r.Some? ==> MatchedCookie(r.value.0) && |r.value.1| < |t|
    ensures ';' !in t ==> r.None?
  {
    if w < |t| && t[w] != '$' then
      var e := w + 1 + Span(t[w + 1..], IsWordChar);
      if e < |t| && t[e] == '=' then
        assert NameShape(t[w..e]) by {
          forall i | 1 <= i < e - w ensures IsWordChar(t[w..e][i]) {
            assert t[w..e][i] == t[w + 1..][i - 1];
          }
        }
        MatchTail(t[w..e], t[e + 1..])
      else None
    else None
  }

  /**
    The leading `\s*` gives back its last character, which becomes the whole
    name; this can only succeed when `=` follows the whitespace run.
   */
  function NameFromRunEnd(t: string, w: nat): (r: Option<(Cookie, string)>)
    requires w <= |t|
    ensures r.Some? ==> |r.value.0.name| == 1 && w >= 1 && r.value.0.name[0] == t[w - 1]
    ensures r.Some? ==> |r.value.1| < |t|
    ensures ';' !in t ==> r.None?
  {
    if 1 <= w < |t| && t[w] == '=' then MatchTail([t[w - 1]], t[w + 1..]) else None
  }

  /** One match attempt at the start of `t`; the record and the text after the match. */
  function MatchAt(t: string): (r: Option<(Cookie, string)>)
    ensures r.Some? ==> MatchedCookie(r.value.0)
    ensures r.Some? ==> |r.value.1| < |t|
    ensures ';' !in t ==> r.None?
  {
    var w := Span(t, IsSpace);
    var first := NameAfterRun(t, w);
    if first.Some? then first
    else
      var second := NameFromRunEnd(t, w);
      assert second.Some? ==> IsSpace(t[w - 1]);
      second
  }

  /** `preg_match_all`: leftmost matches, each search resuming where the previous match ended. */
  function Scan(t: string): (cs: seq<Cookie>)
    ensures forall c :: c in cs ==> MatchedCookie(c)
    decreases |t|
  {
    if |t| == 0 then []
    else
      match MatchAt(t)
      case Some((c, rest)) => [c] + Scan(rest)
      case None => Scan(t[1..])
  }

  /** `output_entry_cookies`: no `cookies` element, no cookies. */
  function OutputEntryCookies(cookies: Option<string>): (cs: seq<Cookie>)
    ensures cookies.None? ==> cs == []
    ensures forall c :: c in cs ==> MatchedCookie(c)
  {
    match cookies
    case None => []
    case Some(text) => Scan(text)
  }

  /** Every match needs a `;` after its value, so text without one yields nothing. */
  lemma {:induction false} NoSemicolonNoCookies(t: string)
    requires ';' !in t
    ensures Scan(t) == []
    decreases |t|
  {
    if |t| > 0 {
      assert ';' !in t[1..];
      NoSemicolonNoCookies(t[1..]);
    }
  }

  /** A cookie the JMeter cookie text can carry and the scanner reads back unchanged. */
  predicate WellFormedCookie(c: Cookie) {
    && |c.name| >= 1
    && (forall i :: 0 <= i < |c.name| ==> IsWordChar(c.name[i]))
    && |c.value| >= 1 && ';' !in c.value
    && ';' !in c.path
    && |c.domain| >= 1 && ';' !in c.domain
  }

  /** `name=value; $Path=path; $Domain=domain`, the form JMeter writes, followed by `after`. */
  function RenderCookieThen(c: Cookie, after: string): string {
    c.name + ("=" + (c.value + (";" + (" " + ("$Path=" + (c.path + (";" + (" " + ("$Domain=" + (c.domain + after))))))))))
  }

  /** Rendered cookies separated by `"; "`. */
  function RenderCookies(cs: seq<Cookie>): string
  {
    if |cs| == 0 then ""
    else if |cs| == 1 then RenderCookieThen(cs[0], "")
    else RenderCookieThen(cs[0], "; " + RenderCookies(cs[1..]))
  }

  /** What may follow a rendered cookie: nothing, or `"; "` and a further name. */
  predicate Separator(after: string, more: string) {
    (after == "" && more == "") || (after == "; " + more && |more| >= 1 && !IsSpace(more[0]))
  }

  lemma DomainEnd(domain: string, after: string, more: string)
    requires |domain| >= 1 && ';' !in domain
    requires Separator(after, more)
    ensures MatchDomain(domain + after) == Some((domain, more))
  {
    if after == "" {
      assert domain + after == domain;
      assert domain[..|domain|] == domain;
      MatchDomainAt(domain, |domain|, domain, []);
    } else {
      var t := domain + (";" + (" " + more));
      SemicolonSpace(more);
      IndexOfAfter(domain, ';', " " + more);
      AroundSeparator(domain, ';', " " + more);
      MatchDomainAt(t, |domain|, domain, " " + more);
      SpanAppend(" ", more, IsSpace);
      SpanStops(more, IsSpace);
      SlicesOfConcat(" ", more);
    }
  }

  lemma SemicolonSpace(more: string)
    ensures "; " + more == ";" + (" " + more)
  {
  }

  lemma MatchDomainAt(t: string, d: nat, domain: string, t5: string)
    requires d == IndexOf(t, ';') && d > 0
    requires domain == t[..d]
    requires t5 == if d < |t| then t[d + 1..] else []
    ensures MatchDomain(t) == Some((domain, t5[Span(t5, IsSpace)..]))
  {
  }

  lemma MatchPathOnRendered(c: Cookie, after: string, more: string)
    requires WellFormedCookie(c)
    requires Separator(after, more)
    ensures MatchPathOn(c.name, c.value, c.path + (";" + (" " + ("$Domain=" + (c.domain + after)))))
      == Some((c, more))
  {
    FieldThenSemicolonOf(c.path, " " + ("$Domain=" + (c.domain + after)), true);
    SpaceThenLiteralOf(" ", "$Domain=", c.domain + after);
    DomainEnd(c.domain, after, more);
  }

  lemma MatchTailRendered(c: Cookie, after: string, more: string)
    requires WellFormedCookie(c)
    requires Separator(after, more)
    ensures MatchTail(c.name, c.value + (";" + (" " + ("$Path=" +
      (c.path + (";" + (" " + ("$Domain=" + (c.domain + after))))))))) == Some((c, more))
  {
    var t2 := c.path + (";" + (" " + ("$Domain=" + (c.domain + after))));
    FieldThenSemicolonOf(c.value, " " + ("$Path=" + t2), false);
    SpaceThenLiteralOf(" ", "$Path=", t2);
    MatchPathOnRendered(c, after, more);
  }

  lemma NameThenEquals(name: string, rest: string)
    requires |name| >= 1
    requires forall i :: 0 <= i < |name| ==> IsWordChar(name[i])
    ensures Span((name + ("=" + rest))[1..], IsWordChar) == |name| - 1
  {
    var t := name + ("=" + rest);
    assert t[1..] == name[1..] + ("=" + rest);
    SpanAppend(name[1..], "=" + rest, IsWordChar);
    SpanStops("=" + rest, IsWordChar);
  }

  lemma MatchAtRendered(c: Cookie, after: string, more: string)
    requires WellFormedCookie(c)
    requires Separator(after, more)
    ensures MatchAt(RenderCookieThen(c, after)) == Some((c, more))
  {
    var body := c.value + (";" + (" " + ("$Path=" +
      (c.path + (";" + (" " + ("$Domain=" + (c.domain + after))))))));
    var t := RenderCookieThen(c, after);
    assert t == c.name + ("=" + body);
    assert IsWordChar(c.name[0]);
    assert t[0] == c.name[0];
    SpanStops(t, IsSpace);
    NameThenEquals(c.name, body);
    var e := |c.name|;
    assert t[e] == '=';
    assert t[0..e] == c.name;
    assert t[e + 1..] == body;
    MatchTailRendered(c, after, more);
  }

  lemma RenderCookiesStart(cs: seq<Cookie>)
    requires |cs| >= 1
    requires WellFormedCookie(cs[0])
    ensures |RenderCookies(cs)| >= 1 && RenderCookies(cs)[0] == cs[0].name[0]
  {
  }

  lemma ScanStep(t: string, c: Cookie, rest: string)
    requires MatchAt(t) == Some((c, rest))
    ensures Scan(t) == [c] + Scan(rest)
  {
  }

  lemma RenderCookiesUnfold(cs: seq<Cookie>)
    requires |cs| >= 2
    ensures RenderCookies(cs) == RenderCookieThen(cs[0], "; " + RenderCookies(cs[1..]))
  {
  }

  /** Scanning the rendering of two or more cookies finds the first, then resumes on the rest's rendering. */
  lemma ScanRenderedStep(cs: seq<Cookie>)
    requires |cs| >= 2
    requires WellFormedCookie(cs[0]) && WellFormedCookie(cs[1..][0])
    ensures Scan(RenderCookies(cs)) == [cs[0]] + Scan(RenderCookies(cs[1..]))
  {
    var more := RenderCookies(cs[1..]);
    var t := RenderCookieThen(cs[0], "; " + more);
    RenderCookiesStart(cs[1..]);
    SeparatorBeforeName(more, cs[1..][0]);
    MatchAtRendered(cs[0], "; " + more, more);
    ScanStep(t, cs[0], more);
    RenderCookiesUnfold(cs);
  }

  /** Text that starts with a cookie's name may follow `"; "`. */
  lemma SeparatorBeforeName(more: string, c: Cookie)
    requires WellFormedCookie(c)
    requires |more| >= 1 && more[0] == c.name[0]
    ensures Separator("; " + more, more)
  {
    WordCharNotSpace(c.name[0]);
  }

  /** Scanning the rendered text of well-formed cookies gives back the same cookies, in order. */
  lemma {:induction false} CookiesRoundTrip(cs: seq<Cookie>)
    requires forall i :: 0 <= i < |cs| ==> WellFormedCookie(cs[i])
    ensures Scan(RenderCookies(cs)) == cs
  {
    if |cs| == 1 {
      MatchAtRendered(cs[0], "", "");
      ScanStep(RenderCookieThen(cs[0], ""), cs[0], "");
    } else if |cs| > 1 {
      var tail := cs[1..];
      assert WellFormedCookie(cs[0]) && WellFormedCookie(tail[0]);
      ScanRenderedStep(cs);
      assert forall i :: 0 <= i < |tail| ==> tail[i] == cs[i + 1];
      CookiesRoundTrip(tail);
      assert cs == [cs[0]] + tail;
    }
  }

  lemma RenderSecondExample()
    ensures RenderCookies([Cookie("B", "2", "/p", ".y.com")]) == "B=2; $Path=/p; $Domain=.y.com"
  {
    RenderOneExample();
  }

  lemma RenderFirstExample(more: string)
    ensures RenderCookieThen(Cookie("A", "1", "/", ".x.com"), "; " + more) == "A=1; $Path=/; $Domain=.x.com; " + more
  {
  }

  lemma RenderOneExample()
    ensures RenderCookieThen(Cookie("B", "2", "/p", ".y.com"), "") == "B=2; $Path=/p; $Domain=.y.com"
  {
  }

  /** The JMeter cookie text of two cookies scans to those two records. */
  lemma TwoCookieExample(text: string)
    requires text == "A=1; $Path=/; $Domain=.x.com; " + "B=2; $Path=/p; $Domain=.y.com"
    ensures OutputEntryCookies(Some(text)) == [Cookie("A", "1", "/", ".x.com"), Cookie("B", "2", "/p", ".y.com")]
  {
    var a, b := Cookie("A", "1", "/", ".x.com"), Cookie("B", "2", "/p", ".y.com");
    RenderSecondExample();
    RenderFirstExample("B=2; $Path=/p; $Domain=.y.com");
    RenderCookiesUnfold([a, b]);
    assert [a, b][1..] == [b];
    assert WellFormedCookie(a) && WellFormedCookie(b);
    CookiesRoundTrip([a, b]);
  }
}
