/**
 * `formatTime` of src/lib/utils.ts, which renders a number of seconds as
 * "<h>h <m>m <s>s" with the zero hour and minute segments dropped, and the
 * conversion of integers to decimal text (`String(n)`, template interpolation)
 * that it and the feedback messages rely on.
 */
module Utils {
  import Board

  /* ---------------------------------------------------------------- decimal text */

  predicate IsDigit(c: char)
  {
    '0' <= c <= '9'
  }

  function DigitChar(d: int): (c: char)
    requires 0 <= d < 10
    ensures IsDigit(c)
  {
    (('0' as int) + d) as char
  }

  function DigitValue(c: char): (d: nat)
    requires IsDigit(c)
    ensures d < 10
  {
    (c as int) - ('0' as int)
  }

  predicate AllDigits(s: string)
  {
    forall i :: 0 <= i < |s| ==> IsDigit(s[i])
  }

  /** The decimal digits of a natural number, most significant first, without leading zeros. */
  function NatToString(n: nat): (s: string)
    ensures |s| >= 1 && AllDigits(s)
    ensures |s| > 1 ==> s[0] != '0'
    ensures n < 10 <==> |s| == 1
  {
    if n < 10 then [DigitChar(n)]
    else
      var init := NatToString(n / 10);
      var s := init + [DigitChar(n % 10)];
      assert forall i :: 0 <= i < |init| ==> s[i] == init[i];
      s
  }

  /** The value of a string of decimal digits. */
  function DigitsValue(s: string): nat
    requires AllDigits(s)
  {
    if |s| == 0 then 0 else DigitsValue(s[..|s| - 1]) * 10 + DigitValue(s[|s| - 1])
  }

  /** Reading the digits back gives the number. */
  lemma {:induction false} NatToStringRoundTrip(n: nat)
    ensures DigitsValue(NatToString(n)) == n
  {
    var s := NatToString(n);
    if n >= 10 {
      NatToStringRoundTrip(n / 10);
      assert s[..|s| - 1] == NatToString(n / 10);
    }
  }

  /** Different numbers have different digit strings. */
  lemma NatToStringInjective(m: nat, n: nat)
    requires NatToString(m) == NatToString(n)
    ensures m == n
  {
    NatToStringRoundTrip(m);
    NatToStringRoundTrip(n);
  }

  /** `String(n)` for an integer-valued number: a minus sign before the digits of a
      negative one. */
  function IntToString(n: int): (s: string)
    ensures |s| >= 1
    ensures n < 0 <==> s[0] == '-'
    ensures forall i :: 0 < i < |s| ==> IsDigit(s[i])
    ensures n >= 0 ==> IsDigit(s[0])
  {
    if n < 0 then "-" + NatToString(-n) else NatToString(n)
  }

  /** The value of `String(n)` read back: the inverse of `IntToString`. It also reads
      digit strings with leading zeros, which `IntToString` never produces; only the
      round trip below is claimed of it. */
  function ParseInt(s: string): int
    requires |s| >= 1 && (s[0] == '-' || IsDigit(s[0])) && forall i :: 0 < i < |s| ==> IsDigit(s[i])
  {
    if s[0] == '-' then 0 - (DigitsValue(s[1..]) as int) else DigitsValue(s)
  }

  lemma IntToStringRoundTrip(n: int)
    ensures ParseInt(IntToString(n)) == n
  {
    if n < 0 {
      assert IntToString(n)[1..] == NatToString(-n);
      NatToStringRoundTrip(-n);
    } else {
      NatToStringRoundTrip(n);
    }
  }

  /** The characters of `String(n)` are digits and the minus sign. */
  lemma IntToStringChars(n: int, c: char)
    requires c in IntToString(n)
    ensures IsDigit(c) || c == '-'
  {
  }

  /* ---------------------------------------------------------------- formatTime */

  /** The whole hours of `formatTime`, rounded down (Dafny's division rounds down for a
      positive divisor, as `Math.floor` of the quotient does). */
  function Hours(timeInSeconds: int): (hours: int)
    ensures hours * 3600 <= timeInSeconds < hours * 3600 + 3600
  {
    timeInSeconds / 3600
  }

  /** The minutes of `formatTime`: the remainder modulo an hour, which keeps the sign of
      the time as JavaScript's `%` does, in whole minutes rounded down. */
  function Minutes(timeInSeconds: int): (minutes: int)
    ensures minutes * 60 <= Board.JsRem(timeInSeconds, 3600) < minutes * 60 + 60
    ensures timeInSeconds >= 0 ==> 0 <= minutes < 60
    ensures timeInSeconds < 0 ==> -60 <= minutes <= 0
  {
    Board.JsRem(timeInSeconds, 3600) / 60
  }

  /** The seconds of `formatTime`: the remainder modulo a minute, with the sign of the
      time. */
  function Seconds(timeInSeconds: int): (seconds: int)
    ensures -60 < seconds < 60 && (timeInSeconds - seconds) % 60 == 0
    ensures timeInSeconds >= 0 ==> seconds >= 0
    ensures timeInSeconds < 0 ==> seconds <= 0
  {
    Board.JsRem(timeInSeconds, 60)
  }

  /** `formatTime`: the hour and minute segments appear only when positive, the
      seconds segment always. */
  function FormatTime(timeInSeconds: int): (text: string)
    ensures |text| >= 2 && text[|text| - 1] == 's'
  {
    var hours := Hours(timeInSeconds);
    var minutes := Minutes(timeInSeconds);
    var seconds := Seconds(timeInSeconds);
    (if hours > 0 then IntToString(hours) + "h " else "")
    + (if minutes > 0 then IntToString(minutes) + "m " else "")
    + IntToString(seconds) + "s"
  }

  /** For a non-negative time the three parts are a decomposition into hours, minutes
      below 60 and seconds below 60 (the bounds are the parts' own contracts). */
  lemma TimeParts(timeInSeconds: int)
    requires timeInSeconds >= 0
    ensures Hours(timeInSeconds) >= 0
    ensures Hours(timeInSeconds) * 3600 + Minutes(timeInSeconds) * 60 + Seconds(timeInSeconds)
         == timeInSeconds
  {
    var t := timeInSeconds;
    var r := t % 3600;
    var m := r / 60;
    Board.DivModUnique(t, 60, (t / 3600) * 60 + m, r % 60);
  }

  /** The hour segment is present exactly when the hours are positive, likewise the
      minute segment, and the text always ends with the seconds and "s". */
  lemma FormatTimeSegments(timeInSeconds: int)
    ensures 'h' in FormatTime(timeInSeconds) <==> Hours(timeInSeconds) > 0
    ensures 'm' in FormatTime(timeInSeconds) <==> Minutes(timeInSeconds) > 0
    ensures var r := FormatTime(timeInSeconds); var tail := IntToString(Seconds(timeInSeconds)) + "s";
      |tail| <= |r| && r[|r| - |tail|..] == tail
  {
    var hours := Hours(timeInSeconds);
    var minutes := Minutes(timeInSeconds);
    var hs := if hours > 0 then IntToString(hours) + "h " else "";
    var ms := if minutes > 0 then IntToString(minutes) + "m " else "";
    var tail := IntToString(Seconds(timeInSeconds)) + "s";
    var r := FormatTime(timeInSeconds);
    assert r == hs + ms + tail;
    SegmentLayout(hs, ms, tail);
    HourSegment(hs, ms, tail, hours, minutes, Seconds(timeInSeconds));
    MinuteSegment(hs, ms, tail, hours, minutes, Seconds(timeInSeconds));
  }

  /** With positive hours the text opens with the hours, "h" and a space. */
  lemma HourSegmentText(timeInSeconds: int)
    requires Hours(timeInSeconds) > 0
    ensures var r := FormatTime(timeInSeconds); var h := IntToString(Hours(timeInSeconds));
      |h| + 2 <= |r| && r[..|h| + 2] == h + "h "
  {
    var minutes := Minutes(timeInSeconds);
    var hs := IntToString(Hours(timeInSeconds)) + "h ";
    var ms := if minutes > 0 then IntToString(minutes) + "m " else "";
    SegmentLayout(hs, ms, IntToString(Seconds(timeInSeconds)) + "s");
  }

  /** With positive minutes the minutes, "m" and a space follow the hour segment, or open
      the text when there is none. */
  lemma MinuteSegmentText(timeInSeconds: int)
    requires Minutes(timeInSeconds) > 0
    ensures var r := FormatTime(timeInSeconds); var m := IntToString(Minutes(timeInSeconds));
      var start := if Hours(timeInSeconds) > 0 then |IntToString(Hours(timeInSeconds))| + 2 else 0;
      start + |m| + 2 <= |r| && r[start..start + |m| + 2] == m + "m "
  {
    var hours := Hours(timeInSeconds);
    var hs := if hours > 0 then IntToString(hours) + "h " else "";
    var ms := IntToString(Minutes(timeInSeconds)) + "m ";
    SegmentLayout(hs, ms, IntToString(Seconds(timeInSeconds)) + "s");
  }

  /** Proof step for `FormatTimeSegments`, `HourSegmentText` and `MinuteSegmentText`: where each of three concatenated segments lies. */
  lemma SegmentLayout(hs: string, ms: string, tail: string)
    ensures (hs + ms + tail)[..|hs|] == hs
    ensures (hs + ms + tail)[|hs|..|hs| + |ms|] == ms
    ensures (hs + ms + tail)[|hs| + |ms|..] == tail
  {
    var r := hs + ms + tail;
    assert r[..|hs|] == hs;
    assert r[|hs|..|hs| + |ms|] == ms;
  }

  /** Proof step for `FormatTimeSegments`: the text of `formatTime` split into its three
      segments holds an 'h' exactly when
      the hour segment is there. */
  lemma HourSegment(hs: string, ms: string, tail: string, hours: int, minutes: int, seconds: int)
    requires hs == if hours > 0 then IntToString(hours) + "h " else ""
    requires ms == if minutes > 0 then IntToString(minutes) + "m " else ""
    requires tail == IntToString(seconds) + "s"
    ensures 'h' in hs + ms + tail <==> hours > 0
  {
    var r := hs + ms + tail;
    if hours > 0 {
      assert r[|IntToString(hours)|] == 'h';
    } else {
      forall i | 0 <= i < |r| ensures r[i] != 'h' {
        if i < |ms| { ExcludedChar(IntToString(minutes) + "m ", i, minutes, 'm', 'h'); }
        else { ExcludedChar(tail, i - |ms|, seconds, 's', 'h'); }
      }
    }
  }

  /** Proof step for `FormatTimeSegments`: likewise an 'm' exactly when the minute
      segment is there. */
  lemma MinuteSegment(hs: string, ms: string, tail: string, hours: int, minutes: int, seconds: int)
    requires hs == if hours > 0 then IntToString(hours) + "h " else ""
    requires ms == if minutes > 0 then IntToString(minutes) + "m " else ""
    requires tail == IntToString(seconds) + "s"
    ensures 'm' in hs + ms + tail <==> minutes > 0
  {
    var r := hs + ms + tail;
    if minutes > 0 {
      assert r[|hs| + |IntToString(minutes)|] == 'm';
    } else {
      forall i | 0 <= i < |r| ensures r[i] != 'm' {
        if i < |hs| { ExcludedChar(IntToString(hours) + "h ", i, hours, 'h', 'm'); }
        else { ExcludedChar(tail, i - |hs|, seconds, 's', 'm'); }
      }
    }
  }

  /** Proof step for `HourSegment` and `MinuteSegment`: a segment `String(n)` + unit
      letter [+ space] holds no other letter. */
  lemma ExcludedChar(seg: string, i: int, n: int, unit: char, other: char)
    requires unit != other && other != ' ' && !IsDigit(other) && other != '-'
    requires seg == IntToString(n) + [unit] || seg == IntToString(n) + [unit, ' ']
    requires 0 <= i < |seg|
    ensures seg[i] != other
  {
    if i < |IntToString(n)| {
      assert seg[i] == IntToString(n)[i];
      IntToStringChars(n, seg[i]);
    }
  }

  /** A negative time shows neither hours nor minutes, only the sign-keeping remainder. */
  lemma NegativeTime(timeInSeconds: int)
    requires timeInSeconds < 0
    ensures FormatTime(timeInSeconds) == IntToString(Seconds(timeInSeconds)) + "s"
    ensures -60 < Seconds(timeInSeconds) <= 0
  {
  }

  lemma FormatTimeExamples()
    ensures FormatTime(0) == "0s"
    ensures FormatTime(59) == "59s"
    ensures FormatTime(60) == "1m 0s"
    ensures FormatTime(-61) == "-1s"
  {
    assert NatToString(59) == "59";
  }

  lemma FormatTimeHourExamples()
    ensures FormatTime(3600) == "1h 0s"
    ensures FormatTime(3661) == "1h 1m 1s"
  {
  }
}
