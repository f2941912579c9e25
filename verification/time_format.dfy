/**
 * `formatTimeDifference`: a signed number of minutes as an English phrase
 * ("same time", "ahead by 1 hour and 30 minutes", "behind by 5 hours").
 * `Describe` says what the phrase is; `FormatTimeDifference` builds it the
 * way the library does, by pushing parts and joining them; `Parse` reads a
 * phrase back, and reading back what was written gives the minutes again.
 */
module TimeFormat {
  import opened Wrappers
  import opened Text

  // ---------------------------------------------------------------------
  // Decimal numerals (`${n}` for a non-negative integer)
  // ---------------------------------------------------------------------

  predicate IsDigit(c: char)
  {
    '0' <= c <= '9'
  }

  function DigitChar(d: nat): (c: char)
    requires d < 10
    ensures IsDigit(c)
  {
    ('0' as int + d) as char
  }

  /** Decimal digits of `n`, most significant first, without leading zeros. */
  function Digits(n: nat): (s: string)
    ensures |s| >= 1
    ensures forall i :: 0 <= i < |s| ==> IsDigit(s[i])
    decreases n
  {
    if n < 10 then [DigitChar(n)] else Digits(n / 10) + [DigitChar(n % 10)]
  }

  function Pow10(k: nat): nat
  {
    if k == 0 then 1 else 10 * Pow10(k - 1)
  }

  /** Reads the leading run of digits of `s` onto `acc`; returns the value and what follows. */
  function ParseNat(s: string, acc: nat): (nat, string)
    decreases |s|
  {
    if |s| > 0 && IsDigit(s[0]) then ParseNat(s[1..], acc * 10 + (s[0] as int - '0' as int))
    else (acc, s)
  }

  lemma ParseNatStops(s: string, acc: nat)
    requires |s| == 0 || !IsDigit(s[0])
    ensures ParseNat(s, acc) == (acc, s)
  {
  }

  /** Reading the digits of `n` continues the number already read with `n`. */
  lemma {:induction false} ParseDigits(n: nat, rest: string, acc: nat)
    ensures ParseNat(Digits(n) + rest, acc) == ParseNat(rest, acc * Pow10(|Digits(n)|) + n)
    decreases n
  {
    if n < 10 {
      assert Digits(n) + rest == [DigitChar(n)] + rest;
      assert (Digits(n) + rest)[1..] == rest;
    } else {
      var q, d := n / 10, n % 10;
      var tail := [DigitChar(d)] + rest;
      assert Digits(n) + rest == Digits(q) + tail;
      ParseDigits(q, tail, acc);
      var p := Pow10(|Digits(q)|);
      assert ParseNat(tail, acc * p + q) == ParseNat(rest, (acc * p + q) * 10 + d) by {
        assert tail[1..] == rest;
      }
      assert Pow10(|Digits(n)|) == 10 * p;
      ShiftDigit(acc, p, q, d);
    }
  }

  /** Appending digit `d` to `acc` followed by `q`: the arithmetic behind one step of `ParseDigits`. */
  lemma ShiftDigit(acc: nat, p: nat, q: nat, d: nat)
    ensures (acc * p + q) * 10 + d == acc * (10 * p) + (q * 10 + d)
  {
    calc {
      (acc * p + q) * 10 + d;
      acc * p * 10 + q * 10 + d;
      acc * (10 * p) + (q * 10 + d);
    }
  }

  /** The digits of `n` followed by a non-digit read back as `n`. */
  lemma ParseDigitsThen(n: nat, rest: string)
    requires |rest| == 0 || !IsDigit(rest[0])
    ensures ParseNat(Digits(n) + rest, 0) == (n, rest)
  {
    ParseDigits(n, rest, 0);
    ParseNatStops(rest, n);
  }

  // ---------------------------------------------------------------------
  // The phrase
  // ---------------------------------------------------------------------

  /** "`n` `unit`", with an "s" unless `n` is exactly 1. */
  function Quantity(n: nat, unit: string): (r: string)
    ensures StartsWith(r, Digits(n) + " " + unit)
    ensures |r| == |Digits(n)| + 1 + |unit| + (if n == 1 then 0 else 1)
    ensures n != 1 ==> r[|r| - 1] == 's'
  {
    Digits(n) + " " + unit + (if n != 1 then "s" else "")
  }

  /** The hour part, the minute part, or both joined by " and ", leaving out a zero part. */
  function Span(hours: nat, minutes: nat): (r: string)
    ensures hours > 0 ==> StartsWith(r, Digits(hours) + " hour")
    ensures hours == 0 ==> StartsWith(r, Digits(minutes) + " minute")
  {
    if hours > 0 && minutes > 0 then Quantity(hours, "hour") + " and " + Quantity(minutes, "minute")
    else if hours > 0 then Quantity(hours, "hour")
    else Quantity(minutes, "minute")
  }

  function Abs(x: int): nat
  {
    if x < 0 then -x else x
  }

  predicate StartsWith(s: string, prefix: string)
  {
    |prefix| <= |s| && s[..|prefix|] == prefix
  }

  /**
   * The phrase for a difference of `minutes`: "same time" exactly for zero;
   * otherwise whole hours and remaining minutes of the magnitude, after
   * "ahead by " for a positive and "behind by " for a negative difference.
   */
  function Describe(minutes: int): (r: string)
    ensures r == "same time" <==> minutes == 0
    ensures minutes > 0 ==> StartsWith(r, "ahead by ")
    ensures minutes < 0 ==> StartsWith(r, "behind by ")
  {
    if minutes == 0 then "same time"
    else
      var span := Span(Abs(minutes) / 60, Abs(minutes) % 60);
      var r := if minutes > 0 then "ahead by " + span else "behind by " + span;
      assert r[0] != 's';
      assert minutes > 0 ==> r[..9] == "ahead by ";
      assert minutes < 0 ==> r[..10] == "behind by ";
      r
  }

  /**
   * `formatTimeDifference(minutes)`: collects the non-zero parts in a list,
   * joins them with " and " and puts the direction in front.
   */
  method FormatTimeDifference(minutes: int) returns (s: string)
    ensures s == Describe(minutes)
  {
    if minutes == 0 {
      return "same time";
    }
    var hours := Abs(minutes) / 60;
    var remainingMinutes := Abs(minutes) % 60;
    var parts: seq<string> := [];
    if hours > 0 {
      parts := parts + [Quantity(hours, "hour")];
    }
    if remainingMinutes > 0 {
      parts := parts + [Quantity(remainingMinutes, "minute")];
    }
    var timeString := Join(parts, " and ");
    if hours > 0 && remainingMinutes > 0 {
      assert parts == [Quantity(hours, "hour"), Quantity(remainingMinutes, "minute")];
      JoinTwo(Quantity(hours, "hour"), Quantity(remainingMinutes, "minute"), " and ");
    } else if hours > 0 {
      assert parts == [Quantity(hours, "hour")];
    } else {
      assert remainingMinutes > 0;
      assert parts == [Quantity(remainingMinutes, "minute")];
    }
    assert timeString == Span(hours, remainingMinutes);
    s := if minutes > 0 then "ahead by " + timeString else "behind by " + timeString;
  }

  /** `formatTimeDifference(-300)` is "behind by 5 hours". */
  lemma FiveHoursBehind()
    ensures Describe(-300) == "behind by 5 hours"
  {
    assert Abs(-300) / 60 == 5 && Abs(-300) % 60 == 0;
    assert Quantity(5, "hour") == "5 hours" by {
      assert Digits(5) == ['5'];
    }
    assert Span(5, 0) == "5 hours";
  }

  // ---------------------------------------------------------------------
  // Reading a phrase back
  // ---------------------------------------------------------------------

  function DropPlural(s: string): string
  {
    if |s| > 0 && s[0] == 's' then s[1..] else s
  }

  /** Reads "H hour[s]", "H hour[s] and M minute[s]" or "M minute[s]" as a number of minutes. */
  function ParseSpan(t: string): Option<nat>
  {
    var p := ParseNat(t, 0);
    ParseUnits(p.0, p.1)
  }

  /** What may follow the leading number `n` of a span. */
  function ParseUnits(n: nat, r: string): Option<nat>
  {
    if StartsWith(r, " hour") then ParseAfterHours(n, DropPlural(r[5..]))
    else if r == " minute" || r == " minutes" then Some(n)
    else None
  }

  /** What may follow "`n` hour[s]": nothing, or " and " and a minute count. */
  function ParseAfterHours(n: nat, rest: string): Option<nat>
  {
    if rest == "" then Some(n * 60)
    else if StartsWith(rest, " and ") then
      var p := ParseNat(rest[5..], 0);
      ParseMinutesAfterHours(n, p.0, p.1)
    else None
  }

  /** "... and M minute[s]": what may follow the minute count `m` after `n` hours. */
  function ParseMinutesAfterHours(n: nat, m: nat, r: string): Option<nat>
  {
    if r == " minute" || r == " minutes" then Some(n * 60 + m) else None
  }

  /** Reads a phrase produced by `Describe` back into a signed number of minutes. */
  function Parse(s: string): Option<int>
  {
    if s == "same time" then Some(0)
    else if StartsWith(s, "ahead by ") then
      match ParseSpan(s[9..])
      case Some(v) => Some(v)
      case None => None
    else if StartsWith(s, "behind by ") then
      match ParseSpan(s[10..])
      case Some(v) => Some(0 - v)
      case None => None
    else None
  }

  /** "`n` `unit`[s]" is the digits of `n` followed by a space. */
  lemma QuantityShape(n: nat, unit: string)
    ensures Quantity(n, unit) == Digits(n) + (" " + unit + (if n != 1 then "s" else ""))
  {
  }

  lemma UnitsHoursAndMinutes(n: nat, hs: string, m: nat, ms: string)
    requires hs == "" || hs == "s"
    requires ms == " minute" || ms == " minutes"
    ensures ParseUnits(n, " hour" + hs + (" and " + (Digits(m) + ms))) == Some(n * 60 + m)
  {
    var tail := " and " + (Digits(m) + ms);
    UnitsHours(n, hs, tail);
    HoursAndMinutes(n, m, ms);
  }

  /** After " hour" and its optional plural s, reading goes on with what follows. */
  lemma UnitsHours(n: nat, hs: string, tail: string)
    requires hs == "" || hs == "s"
    requires |tail| > 0 && tail[0] == ' '
    ensures ParseUnits(n, " hour" + hs + tail) == ParseAfterHours(n, tail)
  {
    var r := " hour" + hs + tail;
    assert r[..5] == " hour";
    assert r[5..] == hs + tail;
  }

  /** " and M minute[s]" after the hours adds M minutes. */
  lemma HoursAndMinutes(n: nat, m: nat, ms: string)
    requires ms == " minute" || ms == " minutes"
    ensures ParseAfterHours(n, " and " + (Digits(m) + ms)) == Some(n * 60 + m)
  {
    var tail := " and " + (Digits(m) + ms);
    assert tail[..5] == " and ";
    assert tail[5..] == Digits(m) + ms;
    ParseDigitsThen(m, ms);
  }

  lemma SpanShapeBoth(hours: nat, minutes: nat, hs: string, ms: string)
    requires hours > 0 && minutes > 0
    requires hs == if hours != 1 then "s" else ""
    requires ms == " minute" + if minutes != 1 then "s" else ""
    ensures Span(hours, minutes) == Digits(hours) + (" hour" + hs + (" and " + (Digits(minutes) + ms)))
  {
    var dh, dm := Digits(hours), Digits(minutes);
    assert Quantity(hours, "hour") == dh + (" hour" + hs) by {
      QuantityShape(hours, "hour");
      assert " " + "hour" + hs == " hour" + hs;
    }
    assert Quantity(minutes, "minute") == dm + ms by {
      QuantityShape(minutes, "minute");
      assert " " + "minute" + (if minutes != 1 then "s" else "") == ms;
    }
    SeqAssoc4(dh, " hour" + hs, " and ", dm + ms);
  }

  lemma SeqAssoc4(a: string, b: string, c: string, d: string)
    ensures a + b + c + d == a + (b + (c + d))
  {
  }

  lemma SpanRoundTripBoth(hours: nat, minutes: nat)
    requires hours > 0 && minutes > 0
    ensures ParseSpan(Span(hours, minutes)) == Some(hours * 60 + minutes)
  {
    var hs := if hours != 1 then "s" else "";
    var ms := " minute" + if minutes != 1 then "s" else "";
    var r1 := " hour" + hs + (" and " + (Digits(minutes) + ms));
    SpanShapeBoth(hours, minutes, hs, ms);
    ParseDigitsThen(hours, r1);
    UnitsHoursAndMinutes(hours, hs, minutes, ms);
  }

  lemma SpanRoundTripHours(hours: nat)
    requires hours > 0
    ensures ParseSpan(Span(hours, 0)) == Some(hours * 60)
  {
    var hs := if hours != 1 then "s" else "";
    var r1 := " hour" + hs;
    QuantityShape(hours, "hour");
    assert Span(hours, 0) == Digits(hours) + r1;
    ParseDigitsThen(hours, r1);
    assert r1[..5] == " hour";
    assert r1[5..] == hs;
  }

  lemma SpanRoundTripMinutes(minutes: nat)
    requires minutes > 0
    ensures ParseSpan(Span(0, minutes)) == Some(minutes)
  {
    var r1 := " minute" + if minutes != 1 then "s" else "";
    QuantityShape(minutes, "minute");
    assert Span(0, minutes) == Digits(minutes) + r1;
    ParseDigitsThen(minutes, r1);
    assert r1[1] != " hour"[1];
    assert !StartsWith(r1, " hour");
  }

  /** A non-empty span reads back as the number of minutes it spells out. */
  lemma SpanRoundTrip(hours: nat, minutes: nat)
    requires hours > 0 || minutes > 0
    ensures ParseSpan(Span(hours, minutes)) == Some(hours * 60 + minutes)
  {
    if hours > 0 && minutes > 0 {
      SpanRoundTripBoth(hours, minutes);
    } else if hours > 0 {
      SpanRoundTripHours(hours);
    } else {
      SpanRoundTripMinutes(minutes);
    }
  }

  /** No information is lost: every phrase reads back as the difference it describes. */
  lemma ParseDescribe(minutes: int)
    ensures Parse(Describe(minutes)) == Some(minutes)
  {
    if minutes != 0 {
      var h, m := Abs(minutes) / 60, Abs(minutes) % 60;
      SpanRoundTrip(h, m);
      var span := Span(h, m);
      if minutes > 0 {
        assert ("ahead by " + span)[9..] == span;
      } else {
        assert ("behind by " + span)[10..] == span;
        assert ("behind by " + span)[..9][0] != "ahead by "[0];
      }
    }
  }

  /** Different differences are described by different phrases. */
  lemma DescribeInjective(x: int, y: int)
    requires Describe(x) == Describe(y)
    ensures x == y
  {
    ParseDescribe(x);
    ParseDescribe(y);
  }
}
