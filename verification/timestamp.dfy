/**
  `convert_timestamp`: a JMeter millisecond timestamp becomes an ISO 8601
  string. The second-resolution string comes from the process's date
  formatter, which is a parameter here (`fmt`); the model covers the
  arithmetic on the timestamp and the splice that injects the milliseconds.
 */
module Timestamp {
  import opened Text

  /** The millisecond part, as bcmath's `bcmod(ts)`: the remainder takes the sign of `ts`. */
  function Millis(ts: int): (r: int)
    ensures -1000 < r < 1000
    ensures ts >= 0 ==> r >= 0
    ensures ts < 0 ==> r <= 0
  {
    if ts >= 0 then ts % 1000 else -((-ts) % 1000)
  }

  /** The seconds, as bcmath's `bcdiv(ts)` at scale 0: the quotient is truncated toward zero. */
  function Seconds(ts: int): (q: int)
    ensures 1000 * q + Millis(ts) == ts
  {
    if ts >= 0 then ts / 1000 else -((-ts) / 1000)
  }

  /** Before the epoch the split differs from floor division whenever the milliseconds are not zero. */
  lemma TruncationBeforeEpoch(ts: int)
    requires ts < 0 && ts % 1000 != 0
    ensures Seconds(ts) == ts / 1000 + 1
    ensures Millis(ts) == ts % 1000 - 1000
  {
  }

  /** Every `+` of `s` replaced by `"." + ms + "+"`; all other characters kept. */
  function Splice(s: string, ms: string): (r: string)
    ensures |r| >= |s|
  {
    if |s| == 0 then ""
    else SplicePiece(s[0], ms) + Splice(s[1..], ms)
  }

  /** Without a `+` there is nothing to splice. */
  lemma {:induction false} SpliceUnchanged(s: string, ms: string)
    requires '+' !in s
    ensures Splice(s, ms) == s
  {
    if |s| > 0 {
      assert s[0] != '+';
      assert '+' !in s[1..];
      SpliceUnchanged(s[1..], ms);
      assert s == [s[0]] + s[1..];
    }
  }

  /** What one character of the formatted date becomes. */
  function SplicePiece(c: char, ms: string): string
  {
    if c == '+' then "." + ms + "+" else [c]
  }

  lemma {:induction false} SpliceAppend(a: string, b: string, ms: string)
    ensures Splice(a + b, ms) == Splice(a, ms) + Splice(b, ms)
  {
    if |a| == 0 {
      assert a + b == b;
    } else {
      var head := SplicePiece(a[0], ms);
      assert (a + b)[0] == a[0];
      assert (a + b)[1..] == a[1..] + b;
      SpliceAppend(a[1..], b, ms);
      var x, y := Splice(a[1..], ms), Splice(b, ms);
      assert Splice(a + b, ms) == head + (x + y);
      assert Splice(a, ms) == head + x;
      assert head + (x + y) == (head + x) + y;
    }
  }

  lemma SplicePlus(rest: string, ms: string)
    requires '+' !in rest
    ensures Splice("+" + rest, ms) == "." + (ms + ("+" + rest))
  {
    var s := "+" + rest;
    assert s[0] == '+' && s[1..] == rest;
    assert Splice(s, ms) == SplicePiece('+', ms) + Splice(rest, ms);
    SpliceUnchanged(rest, ms);
    assert ("." + ms + "+") + rest == "." + (ms + ("+" + rest));
  }

  /** A date with a positive UTC offset gains the milliseconds just before the offset's sign. */
  lemma SpliceOffset(date: string, offset: string, ms: string)
    requires '+' !in date && '+' !in offset
    ensures Splice(date + ("+" + offset), ms) == date + ("." + (ms + ("+" + offset)))
  {
    SpliceAppend(date, "+" + offset, ms);
    SpliceUnchanged(date, ms);
    SplicePlus(offset, ms);
  }

  /**
    `convert_timestamp` for the timestamp `ts` (an absent attribute reads
    as 0): the formatter is applied to the seconds, and every `+` of its
    result is preceded by a dot and the unpadded millisecond remainder.
   */
  function ConvertTimestamp(ts: int, fmt: int -> string): (r: string)
    ensures '+' !in fmt(Seconds(ts)) ==> r == fmt(Seconds(ts))
    ensures |r| >= |fmt(Seconds(ts))|
  {
    var date := fmt(Seconds(ts));
    var ms := IntToDecimal(Millis(ts));
    assert '+' !in date ==> Splice(date, ms) == date by {
      if '+' !in date {
        SpliceUnchanged(date, ms);
      }
    }
    Splice(date, ms)
  }

  /**
    When the formatted date has one `+` (a positive or zero UTC offset),
    the result is the date, a dot, the milliseconds and then the offset.
   */
  lemma ConvertTimestampOffset(ts: int, fmt: int -> string, date: string, offset: string)
    requires fmt(Seconds(ts)) == date + ("+" + offset)
    requires '+' !in date && '+' !in offset
    ensures ConvertTimestamp(ts, fmt) == date + ("." + (IntToDecimal(Millis(ts)) + ("+" + offset)))
  {
    SpliceOffset(date, offset, IntToDecimal(Millis(ts)));
  }

  /** Seven milliseconds are written `.7`, without zero padding. */
  lemma UnpaddedMillisExample(fmt: int -> string)
    requires fmt(1273686556) == "2010-05-12T19:49:16" + ("+" + "02:00")
    ensures ConvertTimestamp(1273686556007, fmt) == "2010-05-12T19:49:16" + ("." + ("7" + ("+" + "02:00")))
  {
    assert Seconds(1273686556007) == 1273686556;
    assert Millis(1273686556007) == 7;
    assert IntToDecimal(7) == "7";
    SpliceOffset("2010-05-12T19:49:16", "02:00", "7");
  }

  /** A date written with a negative UTC offset carries no milliseconds. */
  lemma NegativeOffsetExample(fmt: int -> string)
    requires fmt(1273686556) == "2010-05-12T12:49:16-05:00"
    ensures ConvertTimestamp(1273686556123, fmt) == "2010-05-12T12:49:16-05:00"
  {
    assert Seconds(1273686556123) == 1273686556;
    assert '+' !in "2010-05-12T12:49:16-05:00";
  }

  lemma MinusFiveHundred()
    ensures IntToDecimal(-500) == "-500"
  {
    assert NatToDecimal(5) == "5";
    assert NatToDecimal(50) == "50";
    assert NatToDecimal(500) == "500";
  }

  /** A timestamp before the epoch gets a negative millisecond part. */
  lemma PreEpochExample(fmt: int -> string)
    requires fmt(-1) == "1969-12-31T23:59:59" + ("+" + "00:00")
    ensures ConvertTimestamp(-1500, fmt) == "1969-12-31T23:59:59" + ("." + ("-500" + ("+" + "00:00")))
  {
    assert Seconds(-1500) == -1;
    assert Millis(-1500) == -500;
    MinusFiveHundred();
    SpliceOffset("1969-12-31T23:59:59", "00:00", "-500");
  }
}
