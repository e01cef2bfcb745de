# jtl2har in Dafny

A model of `JtlToHar`, the converter from a JMeter result log (JTL, the
`testResults` XML document) to an HTTP Archive (HAR 1.1) log. The model
covers these parts:

- the walk that turns the top-level `httpSample` elements into pages and
  entries, with its redirect-chain rule;
- every `output_*` record builder: page, entry, timings, request, response,
  content, cookies, headers and assertions;
- the header-block parser `convert_headers`;
- the cookie scanner, a `preg_match_all` over the JMeter cookie text;
- the timestamp conversion `convert_timestamp`.

The XML document becomes an immutable tree in `Jtl`:

- A `Sample` holds its attributes `ts`, `t`, `lt`, `ct`, `rc`, `rm`, `lb`
  and `by`.
- It also holds its text elements (`method`, `java.net.URL`,
  `requestHeader`, `responseHeader`, `responseData`, `redirectLocation`,
  `cookies`), its `assertionResult` list and its child samples.
- An absent attribute or element is `None`.
- PHP's `(int)` cast of an absent attribute reads 0, and its `(string)`
  cast reads `""`.

The HAR output is the record family in `Har`. A PHP array with string keys
is a sequence of name/value pairs with distinct names, kept in insertion
order. That is also the shape `output_entry_headers` emits, so that
function is the identity on the pair list.

Modules follow the program's structure:

- `Wrappers` and `Text` hold the option type, character classes, `explode`
  and decimal rendering.
- `Jtl` and `Har` hold the two data models.
- `Headers`, `Cookies` and `Timestamp` hold the three text-processing
  helpers.
- `Entries` holds the per-sample record builders.
- `Walk` holds `make_pages_and_entries`.
- `Convert` holds `convert` and the log header.

Behaviours of the code that the model keeps:

- `compression` is `Option<bool>`. `None` stands for the integer 0 that
  the code emits when there is no `Content-Encoding` header.
- Only the direct children of a top-level sample become entries. The walk
  never visits grandchildren.

- With a `ct` attribute present, an entry's `time` is `t - 1`, not `t`.
  This comes from `send` being -1. A negative `ct` gives `t - 1 - ct`.
- Both the request's and the response's `httpVersion` are the first eight
  characters of the response header block. Without that block the request
  says `"N/A"` and the response says `""`.
- The header pattern's `(.*)\s*$` keeps trailing whitespace in the value,
  because the greedy group takes it.
- When everything before the first colon is whitespace, the name is the
  last whitespace character.
- The header pattern's `.` stops at a line feed and its `$` also matches
  before a final one. The lines `explode` yields never hold a line feed, but
  the parser of one line is modelled for any text.

## Model

| member | source | states |
|---|---|---|
| Text.Split | jtl-to-har/jtl2har.php:383 | `explode("\n", …)`: at least one piece, no piece contains the separator, and the pieces joined with the separator give back the input |
| Text.SplitJoin | jtl-to-har/jtl2har.php:383 | splitting text made by joining separator-free pieces gives back exactly those pieces |
| Headers.ParseValue | jtl-to-har/jtl2har.php:387 | the value `(.*)` captures never holds a line feed |
| Headers.ParseHeaderLine | jtl-to-har/jtl2har.php:387 | a captured name is never empty; the two lemmas below characterise the match in both directions |
| Headers.ParseHeaderLineShape | jtl-to-har/jtl2har.php:387 | every pair the header pattern captures comes from a split of the line into leading whitespace, a colon-free name, the first colon, whitespace, a value free of line feeds and not starting with whitespace, and a tail of whitespace that is empty or starts with a line feed; the name starts with whitespace only when it is a single character, and an empty value leaves no tail |
| Headers.ParseHeaderLineExact | jtl-to-har/jtl2har.php:387 | conversely, for every such split the pattern captures exactly that name and value |
| Headers.ParseHeaderLineMatches | jtl-to-har/jtl2har.php:387 | a line that matches contains a colon and does not start with one; for a line without a line feed the converse holds too |
| Headers.FinalLineFeedExample | jtl-to-har/jtl2har.php:387 | `a:b` followed by a line feed captures the value `b` without it |
| Headers.GapLineFeedExample | jtl-to-har/jtl2har.php:387 | a line feed between the colon and the value is skipped as whitespace |
| Headers.NextLineExample | jtl-to-har/jtl2har.php:387 | `a: b`, a line feed and `c` does not match |
| Headers.MatchedLines | jtl-to-har/jtl2har.php:384-391 | the filter over the lines keeps at most one pair per line; `MatchedLinesOne` and `MatchedLinesAppend` give its full meaning |
| Headers.MatchedLinesOne | jtl-to-har/jtl2har.php:387-391 | a single line yields its captured pair when it matches and nothing when it does not |
| Headers.MatchedLinesAppend | jtl-to-har/jtl2har.php:384-391 | filtering a concatenation of lines filters each part, so for any mix of lines the result is the pairs of exactly the matching lines, in line order |
| Headers.MatchedLinesFilter | jtl-to-har/jtl2har.php:384-391 | when every line matches, each line yields its own pair in order; when none matches, no pair is kept |
| Headers.Put | jtl-to-har/jtl2har.php:390 | `$headers[$m[1]] = $m[2]`: the length grows by one exactly for a new name, which is then appended at the end; a pair with the assigned name is replaced in place by the assigned pair; every pair with another name keeps its value and position |
| Headers.Collect | jtl-to-har/jtl2har.php:384-391 | assigning the matched pairs into the array gives distinct names, and a name is present exactly when some matched pair carries it |
| Headers.CollectLastWins | jtl-to-har/jtl2har.php:390 | each stored value is the one from the last matched line with that name |
| Headers.CollectFirstOrder | jtl-to-har/jtl2har.php:390 | names appear in the order of their first occurrence, as PHP array overwrite keeps a key's position |
| Headers.CollectDistinct | jtl-to-har/jtl2har.php:390 | pairs whose names are already distinct are stored unchanged and in order |
| Headers.ConvertHeaders | jtl-to-har/jtl2har.php:378-395 | an absent header block gives no headers; the result never repeats a name |
| Headers.Lookup | jtl-to-har/jtl2har.php:288 | `isset($headers[$n])` holds exactly when a pair named `n` exists, and the value returned belongs to such a pair |
| Headers.MatchedRenderedLines | jtl-to-har/jtl2har.php:384-391 | `Name: value` lines of well-formed headers all match and yield those headers in order |
| Headers.HeaderBlockRoundTrip | jtl-to-har/jtl2har.php:378-395 | a block rendered from well-formed, distinctly named headers converts back to the same headers |
| Headers.StatusBlockRoundTrip | jtl-to-har/jtl2har.php:378-395 | a block as JMeter records it, a status line without a colon followed by well-formed, distinctly named header lines, converts back to exactly those headers: the status line is dropped |
| Cookies.FieldThenSemicolonOf | jtl-to-har/jtl2har.php:342 | `([^;]+);` on `field;rest` takes exactly `field` and leaves `rest` |
| Cookies.MatchAt | jtl-to-har/jtl2har.php:342 | a match yields a name of one non-`$` character then word characters, a non-empty value, a path and a non-empty domain, none containing `;`, and consumes input; text without `;` never matches |
| Cookies.Scan | jtl-to-har/jtl2har.php:342-348 | every record `preg_match_all` returns satisfies the pattern's group constraints |
| Cookies.OutputEntryCookies | jtl-to-har/jtl2har.php:335-352 | no `cookies` element gives no cookies; every cookie returned satisfies the pattern's group constraints |
| Cookies.NoSemicolonNoCookies | jtl-to-har/jtl2har.php:342 | cookie text without a `;` yields no cookie |
| Cookies.MatchAtRendered | jtl-to-har/jtl2har.php:340-342 | `name=value; $Path=path; $Domain=domain` followed by nothing or by `; ` and a further name matches as exactly that cookie, and scanning resumes at the further name |
| Cookies.CookiesRoundTrip | jtl-to-har/jtl2har.php:340-348 | well-formed cookies written in JMeter's form, separated by `; `, scan back to the same cookies in the same order |
| Cookies.TwoCookieExample | jtl-to-har/jtl2har.php:340-347 | a two-cookie text in JMeter's form yields the two expected records |
| Timestamp.Millis | jtl-to-har/jtl2har.php:403 | `bcmod($ts, 1000)` lies strictly between -1000 and 1000 and carries the sign of `ts` |
| Timestamp.Seconds | jtl-to-har/jtl2har.php:401 | `bcdiv($ts, 1000)` is the quotient truncated toward zero: `1000 * seconds + millis == ts` |
| Timestamp.TruncationBeforeEpoch | jtl-to-har/jtl2har.php:401-403 | before the epoch, with a non-zero millisecond part, the split is one second above floor division and the remainder is negative |
| Timestamp.Splice | jtl-to-har/jtl2har.php:403 | replacing each `+` never shortens the date string |
| Timestamp.SpliceUnchanged | jtl-to-har/jtl2har.php:403 | a date without `+` is left unchanged |
| Timestamp.SpliceAppend | jtl-to-har/jtl2har.php:403 | the replacement works character by character: splicing a concatenation splices each part |
| Timestamp.SpliceOffset | jtl-to-har/jtl2har.php:403 | a date with one `+` offset gains `.` and the milliseconds right before the `+` |
| Timestamp.ConvertTimestamp | jtl-to-har/jtl2har.php:398-404 | the formatted seconds come back unchanged when they contain no `+` (negative UTC offset), and are never shortened |
| Timestamp.ConvertTimestampOffset | jtl-to-har/jtl2har.php:398-404 | with a `+hh:mm` offset the result is the date, `.`, the unpadded millisecond remainder and the offset |
| Timestamp.UnpaddedMillisExample | jtl-to-har/jtl2har.php:403 | 7 milliseconds are written `.7`, not `.007` |
| Timestamp.NegativeOffsetExample | jtl-to-har/jtl2har.php:403 | a date written with a negative offset gets no milliseconds |
| Timestamp.PreEpochExample | jtl-to-har/jtl2har.php:401-403 | -1500 ms is second -1 with milliseconds written `.-500` |
| Text.NatToDecimal | jtl-to-har/jtl2har.php:208 | PHP's rendering of a non-negative integer in `"page_$id"`: at least one digit, only digits, the decimal value is the integer, and no leading zero except for `0` itself |
| Text.IntToDecimal | jtl-to-har/jtl2har.php:403 | the string bcmod returns: a leading minus exactly for a negative integer, followed by the unpadded decimal of its magnitude |
| Entries.PageId | jtl-to-har/jtl2har.php:208 | a page id is `page_` followed by the decimal index |
| Entries.PageIdInjective | jtl-to-har/jtl2har.php:208 | different indices give different page ids |
| Entries.OutputEntryTimings | jtl-to-har/jtl2har.php:237-248 | blocked, dns and send are -1; connect is `ct` or -1 when absent; connect + wait is the latency `lt`, and connect + wait + receive is the elapsed time `t` |
| Entries.TotalTime | jtl-to-har/jtl2har.php:232 | the sum of the timings with `dns` and `connect` counted only when positive; its value for a sample is stated by `TotalTimeValue` |
| Entries.TotalTimeValue | jtl-to-har/jtl2har.php:232 | the entry's `time` is `t` without `ct`, `t - 1` with a non-negative `ct`, and `t - 1 - ct` with a negative one |
| Entries.TimingExample | jtl-to-har/jtl2har.php:232-246 | `lt` 500, `t` 800 and no `ct` give wait 501, receive 300 and time 800 |
| Entries.StatusLinePrefix | jtl-to-har/jtl2har.php:258 | `substr($s, 0, 8)` is a prefix of the block of length min(8, length) |
| Entries.HeadersSize | jtl-to-har/jtl2har.php:263 | the header size is -1 exactly when the block is absent, else its length |
| Entries.OutputEntryRequest | jtl-to-har/jtl2har.php:250-266 | method and URL default to `N/A`; httpVersion is the response block's first eight characters or `N/A`; cookies and query string are empty; body size is -1; headers come from the request block; header size is the request block's length, or -1 without one |
| Entries.Compression | jtl-to-har/jtl2har.php:307 | absent exactly when there is no `Content-Encoding` header; true exactly when that header is `gzip` or `deflate` |
| Entries.DistinctLookup | jtl-to-har/jtl2har.php:288 | in a header array, looking up a stored pair's name returns that pair's value |
| Entries.OutputEntryContent | jtl-to-har/jtl2har.php:286-312 | size is the `Content-Length` header's text when present, else the body's byte count; mimeType is the `Content-Type` header or empty; text is the body or `Content not available` |
| Entries.OutputEntryResponse | jtl-to-har/jtl2har.php:268-284 | status, status text, redirect URL and body size come from the sample with PHP's cast defaults; cookies, headers and content come from their builders; header size is the response block's length, or -1 without one |
| Entries.HttpVersionShared | jtl-to-har/jtl2har.php:258 | with a response block, request and response report the same `httpVersion`, its first eight characters |
| Entries.CompressionOfBlock | jtl-to-har/jtl2har.php:270 | for a response block made of a status line without a colon and well-formed, distinctly named header lines, compression is true exactly when a `Content-Encoding: gzip` or `deflate` line is present, and absent exactly when no such header exists |
| Entries.Flag | jtl-to-har/jtl2har.php:327 | the flag is 1 exactly when the element's text is `true`, else 0 |
| Entries.OutputEntryAssertions | jtl-to-har/jtl2har.php:319-333 | one record per `assertionResult` in order; name and message copied; failure and error are 1 exactly when the text is `true` |
| Entries.OutputEntry | jtl-to-har/jtl2har.php:219-235 | the entry refers to its page, starts at the converted `ts`, has an empty cache, the sample's timings and assertions, and the total time described for `TotalTimeValue` |
| Entries.OutputPage | jtl-to-har/jtl2har.php:204-217 | the page has id `page_<id>`, the sample's label as title, the converted `ts`, and `lt` and `t` as onLoad and onContentLoad |
| Entries.EmptySampleEntry | jtl-to-har/jtl2har.php:219-312 | a sample with no attributes or elements still yields a full entry made of the defaults the builders write |
| Walk.SamplePlacements | jtl-to-har/jtl2har.php:169-199 | a redirect chain contributes its children alone, any other sample itself then its children; all on the sample's page |
| Walk.IsRedirectChain | jtl-to-har/jtl2har.php:169-172 | the redirect test: a first child exists and its `rc` reads 301 or 302; `RedirectBoundary` and `SamplePlacements` state what follows from it |
| Walk.AppendSampleEntries | jtl-to-har/jtl2har.php:172-199 | one iteration of the walk extends the entries, one to one, by the placements of that sample: its own entry unless it heads a redirect chain, then its children's |
| Walk.MakePagesAndEntries | jtl-to-har/jtl2har.php:159-201 | one page per top-level sample in order, and one entry per placement, in document order, built for the placed sample and its page |
| Walk.PlacementsCount | jtl-to-har/jtl2har.php:159-201 | the number of entries is the sum of the per-sample entry counts |
| Walk.EntriesPerPage | jtl-to-har/jtl2har.php:175-200 | page `k` gets exactly the entries of the k-th top-level sample, and no entry refers to a page past the last sample |
| Walk.PlacementsPrefix | jtl-to-har/jtl2har.php:167-201 | later top-level samples only append entries after those of earlier ones |
| Walk.RedirectBoundary | jtl-to-har/jtl2har.php:172 | for a sample with two children, a first child with status 302 drops the parent's entry, while 303 keeps it |
| Walk.WalkExample | jtl-to-har/jtl2har.php:159-201 | a two-hop redirect chain then a page with one resource give two entries on page 0 and two on page 1 |
| Convert.OutputBrowser | jtl-to-har/jtl2har.php:128-138 | the browser is Jakarta JMeter; its version is `N/A` exactly when the root's version is absent, empty, `0` or itself `N/A`, and otherwise it is the root's version |
| Convert.ConvertLog | jtl-to-har/jtl2har.php:98-126 | the log has HAR version 1.1, creator WatchMouse 0.1, the browser record, one page per top-level sample and the walk's entries |
| Convert.PagerefOfEntry | jtl-to-har/jtl2har.php:225 | an entry's `pageref` names page `k` exactly when the entry was built for page `k`, so together with the walk an entry refers to the page of its top-level sample |

## Left out

- Loading the XML (`__construct`, lines 65-96), the libxml error list and `dump_errors`/`display_error` (lines 406-440): this is input handling and printing. The model starts from the parsed tree.
- `json_encode` (line 111): serialisation of the records is not modelled.
- The lazy caching in `output_pages`/`output_entries` (lines 140-156): the walk is a deterministic function of the document, so running it again changes nothing. The model runs it once.
- `date('c', …)` (line 401) reads the process clock's time zone. It is the parameter `fmt`.
- Timestamp.ConvertTimestamp: the integer is taken as given. The model leaves out how bcmath parses the attribute text. An empty or absent `ts` reads as zero in bcmath, which is the value `IntAttr` gives it.
- Jtl.IntAttr: the integer value of an attribute is taken as given. PHP's text-to-int cast, with its leading-digit parsing and 64-bit saturation, is not modelled, and integers are unbounded.
- Entries.OutputEntryContent: `text` is the body verbatim. The `charset` extraction (line 299) and `mb_convert_encoding` (line 310) are character-set conversion, which is outside the model. The pattern `charset="?(.*)"?` keeps a closing quote: `text/html; charset="utf-8"` yields the charset `utf-8"`, which `mb_convert_encoding` rejects.
- Header names that are decimal integers become integer keys in a PHP array. That is invisible in the HAR output apart from JSON typing, so names stay strings.
- Strings are byte strings, with one `char` per byte. `strlen` and `substr` count chars.
- Entries.StatusLinePrefix: older PHP returns `false` from `substr` on an empty string. It is modelled as `""`, which `json_encode` would render differently.
