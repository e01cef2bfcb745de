/**
  `convert_headers`: a raw header block becomes an ordered name/value map.
  The block is split on line feeds; a line is kept when it matches
  `^\s*([^:]+):\s*(.*)\s*$`; later duplicates overwrite the value of the
  earlier pair but keep its position, as assignment into a PHP array does.
  The map is kept as a sequence of pairs with distinct names, which is also
  the `{name, value}` list `output_entry_headers` emits from it.
 */
module Headers {
  import opened Wrappers
  import opened Text
  import opened Har

  /**
    The part after the colon the pattern accepts, `\s*(.*)\s*$`: whitespace
    (line feeds included), the value, then whitespace to the end. `.` stops
    at a line feed, so the value holds none and whatever follows it starts
    with one; `$` then allows only whitespace after the value. The pattern's
    first `\s*` and its `(.*)` are greedy: the value does not start with
    whitespace, keeps the trailing whitespace of its own line, and when it is
    empty the gap has taken everything.
   */
  predicate ValueParts(gap: string, value: string, tail: string) {
    && AllSpace(gap)
    && (|value| > 0 ==> !IsSpace(value[0]))
    && '\n' !in value
    && AllSpace(tail)
    && (|tail| > 0 ==> tail[0] == '\n')
    && (|value| == 0 ==> |tail| == 0)
  }

  /**
    The split of a header line the pattern accepts: leading whitespace, the
    name, the first colon, then the gap, value and tail of `ValueParts`. The
    name starts with a non-space character unless everything before the
    colon is whitespace, in which case the pattern backtracks and the name is
    the last of it.
   */
  predicate LineShape(line: string, lead: string, h: NameValue, gap: string, tail: string) {
    && line == (lead + h.name) + (":" + (gap + (h.value + tail)))
    && AllSpace(lead)
    && |h.name| >= 1
    && ':' !in h.name
    && (IsSpace(h.name[0]) ==> |h.name| == 1)
    && ValueParts(gap, h.value, tail)
  }

  /**
    Where the captured name starts in the text before the first colon: after
    the leading whitespace, or on its last character when that text is all
    whitespace (the pattern then backtracks by one).
   */
  function NameStart(before: string): (start: nat)
    requires |before| >= 1
    ensures start < |before|
  {
    var w := Span(before, IsSpace);
    if w == |before| then |before| - 1 else w
  }

  /**
    The text after the first colon matched against `\s*(.*)\s*$`: the rest of
    the value's line after the leading whitespace, or `None` when anything
    but whitespace comes after that line.
   */
  function ParseValue(after: string): (v: Option<string>)
    ensures v.Some? ==> '\n' !in v.value
  {
    var rest := after[Span(after, IsSpace)..];
    var n := IndexOf(rest, '\n');
    if AllSpace(rest[n..]) then Some(rest[..n]) else None
  }

  /** One line of a header block, matched against `^\s*([^:]+):\s*(.*)\s*$`. */
  function ParseHeaderLine(line: string): (r: Option<NameValue>)
    ensures r.Some? ==> |r.value.name| >= 1
  {
    var k := IndexOf(line, ':');
    if k == |line| || k == 0 then None
    else
      var before := line[..k];
      match ParseValue(line[k + 1..])
      case None => None
      case Some(value) => Some(NameValue(before[NameStart(before)..], value))
  }

  /** Every pair the parser returns comes from a split of the accepted shape. */
  lemma ParseHeaderLineShape(line: string)
    requires ParseHeaderLine(line).Some?
    ensures exists lead, gap, tail :: LineShape(line, lead, ParseHeaderLine(line).value, gap, tail)
  {
    var k := IndexOf(line, ':');
    var before, after := line[..k], line[k + 1..];
    var start := NameStart(before);
    var g := Span(after, IsSpace);
    var n := IndexOf(after[g..], '\n');
    ParseAt(line, k, before, after);
    assert ParseValue(after) == Some(after[g..][..n]);
    ShapeOfParse(line, k, before, after, start, g, n);
    assert LineShape(line, before[..start], ParseHeaderLine(line).value, after[..g], after[g..][n..]);
  }

  /**
    A line without a line feed, as every line `explode` yields, matches
    exactly when it has a colon and does not start with one. No line matches
    without such a colon.
   */
  lemma ParseHeaderLineMatches(line: string)
    ensures ParseHeaderLine(line).Some? ==> |line| > 0 && line[0] != ':' && ':' in line
    ensures '\n' !in line ==> (ParseHeaderLine(line).Some? <==> |line| > 0 && line[0] != ':' && ':' in line)
  {
    var k := IndexOf(line, ':');
    if '\n' !in line && 0 < k < |line| {
      NotInSuffix(line, '\n', k + 1);
      NoLineFeedValue(line[k + 1..]);
    }
  }

  /** `.` stops at a line feed and `$` matches before a final one: the value ends at its line. */
  lemma FinalLineFeedExample()
    ensures ParseHeaderLine("a:b\n") == Some(NameValue("a", "b"))
  {
    assert "a:b\n" == ("" + "a") + (":" + ("" + ("b" + "\n")));
    ParseHeaderLineExact("a:b\n", "", NameValue("a", "b"), "", "\n");
  }

  /** A line feed right after the colon belongs to the gap `\s*` skips. */
  lemma GapLineFeedExample()
    ensures ParseHeaderLine("a:\n b") == Some(NameValue("a", "b"))
  {
    assert "a:\n b" == ("" + "a") + (":" + ("\n " + ("b" + "")));
    ParseHeaderLineExact("a:\n b", "", NameValue("a", "b"), "\n ", "");
  }

  /** Text on a line after the value's prevents the match. */
  lemma NextLineExample()
    ensures ParseHeaderLine("a: b\nc") == None
  {
    var line := "a: b\nc";
    assert line == ("" + "a") + (":" + " b\nc");
    ColonFirst("", "a", " b\nc");
    ParseAt(line, 1, "a", " b\nc");
    NextLineValue();
  }

  lemma NextLineValue()
    ensures ParseValue(" b\nc") == None
  {
    var after := " b\nc";
    assert after == " " + ("b" + "\nc");
    ValueStartAfterGap(" ", "b" + "\nc");
    SlicesOfConcat(" ", "b" + "\nc");
    ValueEndsAtLineFeed("b", "\nc");
    var rest := after[1..];
    assert rest[1..] == "\nc";
    assert !IsSpace(rest[1..][1]);
  }

  lemma NotInSuffix(s: string, c: char, i: nat)
    requires c !in s && i <= |s|
    ensures c !in s[i..]
  {
    assert forall j :: 0 <= j < |s[i..]| ==> s[i..][j] == s[i + j];
  }

  lemma NoLineFeedValue(after: string)
    requires '\n' !in after
    ensures ParseValue(after).Some?
  {
    var g := Span(after, IsSpace);
    NotInSuffix(after, '\n', g);
    var rest := after[g..];
    assert rest[|rest|..] == [];
  }

  lemma ValueEndsAtLineFeed(value: string, tail: string)
    requires '\n' !in value
    requires |tail| > 0 ==> tail[0] == '\n'
    ensures IndexOf(value + tail, '\n') == |value|
    ensures (value + tail)[..|value|] == value && (value + tail)[|value|..] == tail
  {
    if |tail| > 0 {
      assert tail == [tail[0]] + tail[1..];
      IndexOfAfter(value, '\n', tail[1..]);
    } else {
      assert value + tail == value;
    }
  }

  /** The value the parser reads is the value of a split of the accepted shape. */
  lemma ValueOfParse(after: string, g: nat, n: nat)
    requires g == Span(after, IsSpace) && n == IndexOf(after[g..], '\n')
    requires AllSpace(after[g..][n..])
    ensures after == after[..g] + (after[g..][..n] + after[g..][n..])
    ensures ValueParts(after[..g], after[g..][..n], after[g..][n..])
  {
    var rest := after[g..];
    Halves(after, g);
    Halves(rest, n);
    SpacePrefix(after, g);
    if |rest| > 0 {
      assert rest[0] == after[g];
    }
    if n < |rest| {
      assert rest[n..][0] == rest[n];
    }
    if n > 0 {
      assert rest[..n][0] == rest[0];
    }
  }

  /** Every split of the accepted shape reads back as its value. */
  lemma ParseValueExact(gap: string, value: string, tail: string)
    requires ValueParts(gap, value, tail)
    ensures ParseValue(gap + (value + tail)) == Some(value)
  {
    if |value| > 0 {
      assert (value + tail)[0] == value[0];
    } else {
      assert value + tail == [];
    }
    ValueStartAfterGap(gap, value + tail);
    SlicesOfConcat(gap, value + tail);
    ValueEndsAtLineFeed(value, tail);
  }

  lemma ParseShape(line: string, k: nat, before: string, after: string, start: nat)
    requires k < |line| && line[k] == ':'
    requires before == line[..k] && after == line[k + 1..]
    requires start <= |before|
    ensures line == (before[..start] + before[start..]) + (":" + after)
  {
    AroundIndex(line, k);
    Halves(before, start);
  }

  /** The first `n` characters of `s` are whitespace when `s` starts with at least `n` of them. */
  lemma SpacePrefix(s: string, n: nat)
    requires n <= Span(s, IsSpace)
    ensures AllSpace(s[..n])
  {
    assert forall i :: 0 <= i < n ==> s[..n][i] == s[i];
  }

  lemma NoColonAfter(before: string, start: nat)
    requires start <= |before| && ':' !in before
    ensures ':' !in before[start..]
  {
    assert forall i :: 0 <= i < |before[start..]| ==> before[start..][i] == before[start + i];
  }

  /** The captured name begins with whitespace only when it is the last character before the colon. */
  lemma NameHead(before: string, start: nat)
    requires |before| >= 1 && start == NameStart(before)
    ensures IsSpace(before[start..][0]) ==> |before[start..]| == 1
  {
    var w := Span(before, IsSpace);
    assert before[start..][0] == before[start];
    if IsSpace(before[start]) {
      assert w == |before|;
    }
  }

  lemma ShapeOfParse(line: string, k: nat, before: string, after: string, start: nat, g: nat, n: nat)
    requires k == IndexOf(line, ':') && 0 < k < |line|
    requires before == line[..k] && after == line[k + 1..]
    requires start == NameStart(before)
    requires g == Span(after, IsSpace) && n == IndexOf(after[g..], '\n')
    requires AllSpace(after[g..][n..])
    ensures LineShape(line, before[..start], NameValue(before[start..], after[g..][..n]), after[..g], after[g..][n..])
  {
    ParseShape(line, k, before, after, start);
    ValueOfParse(after, g, n);
    SpacePrefix(before, start);
    NoColonAfter(before, start);
    NameHead(before, start);
  }

  lemma NameStartAfterLead(lead: string, name: string)
    requires AllSpace(lead)
    requires |name| >= 1
    requires IsSpace(name[0]) ==> |name| == 1
    ensures NameStart(lead + name) == |lead|
  {
    SpanAppend(lead, name, IsSpace);
    if IsSpace(name[0]) {
      SpanAppend(name, [], IsSpace);
      assert name + [] == name;
    } else {
      SpanStops(name, IsSpace);
    }
  }

  lemma ValueStartAfterGap(gap: string, value: string)
    requires AllSpace(gap)
    requires |value| > 0 ==> !IsSpace(value[0])
    ensures Span(gap + value, IsSpace) == |gap|
  {
    SpanAppend(gap, value, IsSpace);
    SpanStops(value, IsSpace);
  }

  lemma ColonFirst(lead: string, name: string, rest: string)
    requires AllSpace(lead)
    requires ':' !in name
    ensures IndexOf((lead + name) + (":" + rest), ':') == |lead + name|
  {
    IndexOfAfter(lead + name, ':', rest);
  }

  lemma ParseAt(line: string, k: nat, before: string, after: string)
    requires k == IndexOf(line, ':') && 0 < k < |line|
    requires before == line[..k] && after == line[k + 1..]
    ensures ParseValue(after).None? ==> ParseHeaderLine(line).None?
    ensures ParseValue(after).Some? ==>
      ParseHeaderLine(line) == Some(NameValue(before[NameStart(before)..], ParseValue(after).value))
  {
  }

  /** In a line of the accepted shape, the first colon follows the name, which the pattern captures whole. */
  lemma NameBeforeColon(lead: string, name: string, after: string)
    requires AllSpace(lead)
    requires |name| >= 1 && ':' !in name
    requires IsSpace(name[0]) ==> |name| == 1
    ensures IndexOf((lead + name) + (":" + after), ':') == |lead + name|
    ensures ((lead + name) + (":" + after))[..|lead + name|] == lead + name
    ensures ((lead + name) + (":" + after))[|lead + name| + 1..] == after
    ensures (lead + name)[NameStart(lead + name)..] == name
  {
    ColonFirst(lead, name, after);
    AroundSeparator(lead + name, ':', after);
    NameStartAfterLead(lead, name);
    SlicesOfConcat(lead, name);
  }

  /** Every split of the accepted shape is exactly what the parser returns. */
  lemma ParseHeaderLineExact(line: string, lead: string, h: NameValue, gap: string, tail: string)
    requires LineShape(line, lead, h, gap, tail)
    ensures ParseHeaderLine(line) == Some(h)
  {
    var prefix, after := lead + h.name, gap + (h.value + tail);
    ShapeAroundColon(line, lead, h, gap, tail);
    ParseValueExact(gap, h.value, tail);
    ParseAtValue(line, |prefix|, prefix, after, h.value);
  }

  lemma ShapeAroundColon(line: string, lead: string, h: NameValue, gap: string, tail: string)
    requires LineShape(line, lead, h, gap, tail)
    ensures 0 < |lead + h.name| < |line|
    ensures IndexOf(line, ':') == |lead + h.name|
    ensures line[..|lead + h.name|] == lead + h.name
    ensures line[|lead + h.name| + 1..] == gap + (h.value + tail)
    ensures (lead + h.name)[NameStart(lead + h.name)..] == h.name
  {
    NameBeforeColon(lead, h.name, gap + (h.value + tail));
  }

  lemma ParseAtValue(line: string, k: nat, before: string, after: string, v: string)
    requires k == IndexOf(line, ':') && 0 < k < |line|
    requires before == line[..k] && after == line[k + 1..]
    requires ParseValue(after) == Some(v)
    ensures ParseHeaderLine(line) == Some(NameValue(before[NameStart(before)..], v))
  {
  }

  /** The names of a pair list, in order. */
  function Names(hs: seq<NameValue>): (ns: seq<string>)
    ensures |ns| == |hs|
    ensures forall i :: 0 <= i < |hs| ==> ns[i] == hs[i].name
  {
    seq(|hs|, i requires 0 <= i < |hs| => hs[i].name)
  }

  predicate DistinctNames(hs: seq<NameValue>) {
    forall i, j :: 0 <= i < j < |hs| ==> hs[i].name != hs[j].name
  }

  /**
    PHP's `$headers[$name] = $value`: the assigned pair takes the place of
    the pair with its name, or is appended when the name is new; every other
    pair keeps its value and position.
   */
  function Put(hs: seq<NameValue>, h: NameValue): (r: seq<NameValue>)
    ensures |r| == if h.name in Names(hs) then |hs| else |hs| + 1
    ensures forall i :: 0 <= i < |r| ==> (r[i].name == h.name ==> r[i] == h)
    ensures forall i :: 0 <= i < |r| ==> (r[i].name != h.name ==> i < |hs| && r[i] == hs[i])
    ensures forall i :: 0 <= i < |hs| ==> (hs[i].name != h.name ==> r[i] == hs[i])
    ensures forall i :: 0 <= i < |hs| ==> (hs[i].name == h.name ==> r[i] == h)
    ensures h.name !in Names(hs) ==> r == hs + [h]
  {
    if h.name in Names(hs) then
      seq(|hs|, i requires 0 <= i < |hs| => if hs[i].name == h.name then h else hs[i])
    else hs + [h]
  }

  /** Position of the first pair named `n`, or -1 when there is none. */
  function FirstIndex(pairs: seq<NameValue>, n: string): (j: int)
    ensures -1 <= j < |pairs|
    ensures j >= 0 ==> pairs[j].name == n
    ensures forall k :: 0 <= k < |pairs| && (j < 0 || k < j) ==> pairs[k].name != n
  {
    if |pairs| == 0 then -1
    else
      var j := FirstIndex(pairs[..|pairs| - 1], n);
      if j >= 0 then j
      else if pairs[|pairs| - 1].name == n then |pairs| - 1
      else -1
  }

  /** Position of the last pair named `n`, or -1 when there is none. */
  function LastIndex(pairs: seq<NameValue>, n: string): (j: int)
    ensures -1 <= j < |pairs|
    ensures j >= 0 ==> pairs[j].name == n
    ensures forall k :: j < k < |pairs| ==> pairs[k].name != n
  {
    if |pairs| == 0 then -1
    else if pairs[|pairs| - 1].name == n then |pairs| - 1
    else LastIndex(pairs[..|pairs| - 1], n)
  }

  lemma NamesAppend(hs: seq<NameValue>, h: NameValue)
    ensures Names(hs + [h]) == Names(hs) + [h.name]
  {
  }

  lemma PutNames(hs: seq<NameValue>, h: NameValue)
    ensures h.name in Names(hs) ==> Names(Put(hs, h)) == Names(hs)
    ensures h.name !in Names(hs) ==> Names(Put(hs, h)) == Names(hs) + [h.name]
  {
    if h.name !in Names(hs) {
      NamesAppend(hs, h);
    }
  }

  lemma PutDistinct(hs: seq<NameValue>, h: NameValue)
    requires DistinctNames(hs)
    ensures DistinctNames(Put(hs, h))
  {
    var r := Put(hs, h);
    PutNames(hs, h);
    forall i, j | 0 <= i < j < |r| ensures r[i].name != r[j].name {
      assert Names(r)[i] == r[i].name && Names(r)[j] == r[j].name;
      if h.name !in Names(hs) && j == |hs| {
        assert Names(hs)[i] == r[i].name;
      } else {
        assert Names(hs)[i] == r[i].name && Names(hs)[j] == r[j].name;
      }
    }
  }

  /** The array built by assigning the matched pairs one after another. */
  function Collect(pairs: seq<NameValue>): (r: seq<NameValue>)
    ensures DistinctNames(r)
    ensures forall n :: n in Names(r) <==> n in Names(pairs)
  {
    if |pairs| == 0 then []
    else
      var init := pairs[..|pairs| - 1];
      var c := Collect(init);
      var h := pairs[|pairs| - 1];
      assert pairs == init + [h];
      NamesAppend(init, h);
      PutNames(c, h);
      PutDistinct(c, h);
      Put(c, h)
  }

  lemma NameIn(hs: seq<NameValue>, k: int)
    requires 0 <= k < |hs|
    ensures hs[k].name in Names(hs)
  {
    assert Names(hs)[k] == hs[k].name;
  }

  /** A name occurs in a pair list exactly when it has a first position there. */
  lemma FirstIndexFound(pairs: seq<NameValue>, n: string)
    ensures n in Names(pairs) <==> FirstIndex(pairs, n) >= 0
  {
    if n in Names(pairs) {
      var k :| 0 <= k < |pairs| && Names(pairs)[k] == n;
    }
    if FirstIndex(pairs, n) >= 0 {
      NameIn(pairs, FirstIndex(pairs, n));
    }
  }

  /** Last wins: every pair of the result is the last matched pair with that name. */
  lemma {:induction false} CollectLastWins(pairs: seq<NameValue>)
    ensures forall i :: 0 <= i < |Collect(pairs)| ==>
      LastIndex(pairs, Collect(pairs)[i].name) >= 0 &&
      Collect(pairs)[i] == pairs[LastIndex(pairs, Collect(pairs)[i].name)]
  {
    if |pairs| > 0 {
      var init := pairs[..|pairs| - 1];
      var h := pairs[|pairs| - 1];
      var c := Collect(init);
      var r := Collect(pairs);
      assert r == Put(c, h);
      CollectLastWins(init);
      forall i | 0 <= i < |r|
        ensures LastIndex(pairs, r[i].name) >= 0 && r[i] == pairs[LastIndex(pairs, r[i].name)]
      {
        if r[i].name != h.name {
          var x := r[i].name;
          assert LastIndex(pairs, x) == LastIndex(init, x);
          assert pairs[LastIndex(init, x)] == init[LastIndex(init, x)];
        }
      }
    }
  }

  /** Order of first occurrence: the result lists names as they were first matched. */
  lemma {:induction false} CollectFirstOrder(pairs: seq<NameValue>)
    ensures forall i, j :: 0 <= i < j < |Collect(pairs)| ==>
      0 <= FirstIndex(pairs, Collect(pairs)[i].name) < FirstIndex(pairs, Collect(pairs)[j].name)
  {
    if |pairs| > 0 {
      var init := pairs[..|pairs| - 1];
      var h := pairs[|pairs| - 1];
      var c := Collect(init);
      var r := Collect(pairs);
      assert r == Put(c, h);
      CollectFirstOrder(init);
      PutNames(c, h);
      forall i | 0 <= i < |c|
        ensures r[i].name == c[i].name
        ensures 0 <= FirstIndex(pairs, r[i].name) == FirstIndex(init, c[i].name) < |init|
      {
        NameIn(c, i);
        FirstIndexFound(init, c[i].name);
      }
      if h.name !in Names(c) {
        FirstIndexFound(init, h.name);
        assert FirstIndex(pairs, h.name) == |pairs| - 1;
        assert r[|c|] == h;
      }
      forall i, j | 0 <= i < j < |r|
        ensures 0 <= FirstIndex(pairs, r[i].name) < FirstIndex(pairs, r[j].name)
      {
        if j < |c| {
          assert FirstIndex(init, c[i].name) < FirstIndex(init, c[j].name);
        }
      }
    } else {
      assert Collect(pairs) == [];
    }
  }

  /** Assigning pairs whose names are already distinct builds the same list back. */
  lemma {:induction false} CollectDistinct(pairs: seq<NameValue>)
    requires DistinctNames(pairs)
    ensures Collect(pairs) == pairs
  {
    if |pairs| > 0 {
      var init := pairs[..|pairs| - 1];
      var h := pairs[|pairs| - 1];
      DistinctLast(pairs);
      CollectDistinct(init);
      assert Collect(pairs) == Put(init, h);
      assert init + [h] == pairs;
    }
  }

  /** Dropping the last pair keeps names distinct, and the last name is new to the rest. */
  lemma DistinctLast(pairs: seq<NameValue>)
    requires |pairs| > 0 && DistinctNames(pairs)
    ensures DistinctNames(pairs[..|pairs| - 1])
    ensures pairs[|pairs| - 1].name !in Names(pairs[..|pairs| - 1])
  {
    var init, h := pairs[..|pairs| - 1], pairs[|pairs| - 1];
    forall i, j | 0 <= i < j < |init| ensures init[i].name != init[j].name {
      assert init[i] == pairs[i] && init[j] == pairs[j];
    }
    forall k | 0 <= k < |init| ensures Names(init)[k] != h.name {
      assert init[k] == pairs[k];
    }
  }

  /** The pairs `parse` finds in the lines, in line order; lines it rejects are dropped. */
  function Filtered(lines: seq<string>, parse: string -> Option<NameValue>): (hs: seq<NameValue>)
    ensures |hs| <= |lines|
  {
    if |lines| == 0 then []
    else
      var first := match parse(lines[0]) case Some(h) => [h] case None => [];
      first + Filtered(lines[1..], parse)
  }

  /** The pairs of the lines that match the header pattern, in line order. */
  function MatchedLines(lines: seq<string>): (hs: seq<NameValue>)
    ensures |hs| <= |lines|
  {
    Filtered(lines, ParseHeaderLine)
  }

  lemma {:induction false} FilteredAll(lines: seq<string>, parse: string -> Option<NameValue>)
    ensures (forall i :: 0 <= i < |lines| ==> parse(lines[i]).None?) ==> Filtered(lines, parse) == []
    ensures (forall i :: 0 <= i < |lines| ==> parse(lines[i]).Some?) ==>
      |Filtered(lines, parse)| == |lines| &&
      forall i :: 0 <= i < |lines| ==> Filtered(lines, parse)[i] == parse(lines[i]).value
  {
    if |lines| > 0 {
      FilteredAll(lines[1..], parse);
      assert forall i :: 1 <= i < |lines| ==> lines[1..][i - 1] == lines[i];
    }
  }

  lemma {:induction false} FilteredAppend(a: seq<string>, b: seq<string>, parse: string -> Option<NameValue>)
    ensures Filtered(a + b, parse) == Filtered(a, parse) + Filtered(b, parse)
    decreases |a|
  {
    if |a| == 0 {
      assert a + b == b;
    } else {
      assert (a + b)[0] == a[0];
      assert (a + b)[1..] == a[1..] + b;
      FilteredAppend(a[1..], b, parse);
    }
  }

  /**
    The filter keeps exactly the matching lines: when every line matches,
    each yields its pair in place, and when none does, nothing is kept.
   */
  lemma MatchedLinesFilter(lines: seq<string>)
    ensures (forall i :: 0 <= i < |lines| ==> ParseHeaderLine(lines[i]).None?) ==> MatchedLines(lines) == []
    ensures (forall i :: 0 <= i < |lines| ==> ParseHeaderLine(lines[i]).Some?) ==>
      |MatchedLines(lines)| == |lines| &&
      forall i :: 0 <= i < |lines| ==> MatchedLines(lines)[i] == ParseHeaderLine(lines[i]).value
  {
    FilteredAll(lines, ParseHeaderLine);
  }

  /** A single line yields its pair when it matches and nothing otherwise. */
  lemma MatchedLinesOne(line: string)
    ensures ParseHeaderLine(line).None? ==> MatchedLines([line]) == []
    ensures ParseHeaderLine(line).Some? ==> MatchedLines([line]) == [ParseHeaderLine(line).value]
  {
    assert [line][1..] == [];
  }

  /**
    The filter works line by line: filtering a concatenation filters each
    part. With `MatchedLinesOne` this says the result is the pairs of exactly
    the matching lines, in line order, whatever mix of lines the block has.
   */
  lemma MatchedLinesAppend(a: seq<string>, b: seq<string>)
    ensures MatchedLines(a + b) == MatchedLines(a) + MatchedLines(b)
  {
    FilteredAppend(a, b, ParseHeaderLine);
  }

  /**
    `convert_headers`: an absent block (and an empty one, which PHP also
    treats as false) gives no headers; otherwise the block's lines are split
    on line feeds, matched and assigned in order.
   */
  function ConvertHeaders(block: Option<string>): (r: seq<NameValue>)
    ensures block.None? ==> r == []
    ensures DistinctNames(r)
  {
    match block
    case None => []
    case Some(text) => Collect(MatchedLines(Split(text, '\n')))
  }

  /** The header value stored under `n`: PHP's `isset($headers[$n]) ? $headers[$n] : …`. */
  function Lookup(hs: seq<NameValue>, n: string): (v: Option<string>)
    ensures v.Some? <==> n in Names(hs)
    ensures v.Some? ==> NameValue(n, v.value) in hs
  {
    if |hs| == 0 then None
    else if hs[0].name == n then Some(hs[0].value)
    else
      var v := Lookup(hs[1..], n);
      assert Names(hs) == [hs[0].name] + Names(hs[1..]);
      v
  }

  /** A header the block format can carry and the parser reads back unchanged. */
  predicate WellFormedHeader(h: NameValue) {
    && |h.name| >= 1
    && ':' !in h.name
    && '\n' !in h.name
    && !IsSpace(h.name[0])
    && '\n' !in h.value
    && (|h.value| > 0 ==> !IsSpace(h.value[0]))
  }

  /** One `Name: value` line per header. */
  function RenderLines(hs: seq<NameValue>): (lines: seq<string>)
    ensures |lines| == |hs|
    ensures forall i :: 0 <= i < |hs| ==> lines[i] == hs[i].name + (": " + hs[i].value)
  {
    seq(|hs|, i requires 0 <= i < |hs| => hs[i].name + (": " + hs[i].value))
  }

  lemma RenderedLineParses(h: NameValue)
    requires WellFormedHeader(h)
    ensures ParseHeaderLine(h.name + (": " + h.value)) == Some(h)
  {
    assert h.name + (": " + h.value) == ("" + h.name) + (":" + (" " + (h.value + "")));
    ParseHeaderLineExact(h.name + (": " + h.value), "", h, " ", "");
  }

  lemma RenderLinesTail(hs: seq<NameValue>)
    requires |hs| > 0
    ensures RenderLines(hs)[1..] == RenderLines(hs[1..])
  {
  }

  lemma MatchedLinesCons(lines: seq<string>, h: NameValue)
    requires |lines| > 0 && ParseHeaderLine(lines[0]) == Some(h)
    ensures MatchedLines(lines) == [h] + MatchedLines(lines[1..])
  {
  }

  lemma {:induction false} MatchedRenderedLines(hs: seq<NameValue>)
    requires forall i :: 0 <= i < |hs| ==> WellFormedHeader(hs[i])
    ensures MatchedLines(RenderLines(hs)) == hs
  {
    if |hs| > 0 {
      var lines := RenderLines(hs);
      assert lines[0] == hs[0].name + (": " + hs[0].value);
      RenderedLineParses(hs[0]);
      MatchedLinesCons(lines, hs[0]);
      RenderLinesTail(hs);
      MatchedRenderedLines(hs[1..]);
      assert hs == [hs[0]] + hs[1..];
    }
  }

  /** Rendering well-formed, distinctly named headers as a block and converting it is lossless. */
  lemma HeaderBlockRoundTrip(hs: seq<NameValue>)
    requires DistinctNames(hs)
    requires forall i :: 0 <= i < |hs| ==> WellFormedHeader(hs[i])
    ensures ConvertHeaders(Some(Join(RenderLines(hs), '\n'))) == hs
  {
    var lines := RenderLines(hs);
    if |hs| == 0 {
      assert Split("", '\n') == [""];
      assert ParseHeaderLine("") == None;
    } else {
      forall i | 0 <= i < |lines| ensures '\n' !in lines[i] {
        assert WellFormedHeader(hs[i]);
      }
      SplitJoin(lines, '\n');
      MatchedRenderedLines(hs);
      CollectDistinct(hs);
    }
  }

  /**
    A response block as JMeter records it: a status line without a colon,
    then well-formed, distinctly named header lines. The status line does not
    match the pattern, and the headers come back unchanged.
   */
  lemma StatusBlockRoundTrip(status: string, hs: seq<NameValue>)
    requires ':' !in status && '\n' !in status
    requires DistinctNames(hs)
    requires forall i :: 0 <= i < |hs| ==> WellFormedHeader(hs[i])
    ensures ConvertHeaders(Some(Join([status] + RenderLines(hs), '\n'))) == hs
  {
    var block := Join([status] + RenderLines(hs), '\n');
    StatusBlockLines(status, hs);
    StatusLineSkipped(status, RenderLines(hs));
    MatchedRenderedLines(hs);
    CollectDistinct(hs);
    assert ConvertHeaders(Some(block)) == Collect(MatchedLines(Split(block, '\n')));
  }

  lemma StatusBlockLines(status: string, hs: seq<NameValue>)
    requires '\n' !in status
    requires forall i :: 0 <= i < |hs| ==> WellFormedHeader(hs[i])
    ensures Split(Join([status] + RenderLines(hs), '\n'), '\n') == [status] + RenderLines(hs)
  {
    var lines := [status] + RenderLines(hs);
    forall i | 0 <= i < |lines| ensures '\n' !in lines[i] {
      if i > 0 {
        assert lines[i] == RenderLines(hs)[i - 1];
        assert WellFormedHeader(hs[i - 1]);
      }
    }
    SplitJoin(lines, '\n');
  }

  /** A line without a colon, such as the status line, contributes nothing. */
  lemma StatusLineSkipped(status: string, rest: seq<string>)
    requires ':' !in status
    ensures MatchedLines([status] + rest) == MatchedLines(rest)
  {
    ParseHeaderLineMatches(status);
    assert ([status] + rest)[0] == status;
    assert ([status] + rest)[1..] == rest;
  }
}
