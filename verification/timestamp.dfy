/**
 * `format_timestamp`: a time offset rendered as a SubRip timestamp
 * `HH:MM:SS,mmm`. The offset arrives here as a whole number of milliseconds,
 * possibly negative, possibly absent.
 */
module Timestamp {
  import opened Wrappers
  import opened Decimal

  /** An absent offset counts as 0 and a negative one is clamped to 0. */
  function TotalMillis(t: Option<int>): (ms: nat)
    ensures t.Some? && t.value >= 0 ==> ms == t.value
    ensures t.None? || t.value < 0 ==> ms == 0
  {
    match t
    case None => 0
    case Some(v) => if v < 0 then 0 else v
  }

  /** The four fields of a timestamp. */
  datatype Clock = Clock(hours: nat, minutes: nat, seconds: nat, millis: nat)

  /** Successive floor division and remainder by an hour, a minute and a second. */
  function Split(total: nat): (c: Clock)
    ensures c.minutes < 60 && c.seconds < 60 && c.millis < 1000
    ensures c.hours * 3600000 + c.minutes * 60000
            + c.seconds * 1000 + c.millis == total
  {
    var rem := total % 3600000;
    var rem' := rem % 60000;
    Clock(total / 3600000, rem / 60000, rem' / 1000, rem' % 1000)
  }

  /** `f"{hrs:02d}:{mins:02d}:{secs:02d},{ms:03d}"`. */
  function RenderClock(c: Clock): string {
    ZeroPad(c.hours, 2) + ":" + ZeroPad(c.minutes, 2) + ":" + ZeroPad(c.seconds, 2)
      + "," + ZeroPad(c.millis, 3)
  }

  /** `format_timestamp`, on an offset in whole milliseconds. */
  function FormatTimestamp(t: Option<int>): string {
    RenderClock(Split(TotalMillis(t)))
  }

  /**
   * The layout of a timestamp: an hours field of at least two digits, then
   * `:`, two minute digits, `:`, two second digits, `,` and three millisecond
   * digits; it is exactly twelve characters long when the offset is below
   * one hundred hours.
   */
  lemma FormatTimestampLayout(t: Option<int>)
    ensures var r := FormatTimestamp(t);
      && |r| >= 12
      && r[|r| - 10] == ':' && r[|r| - 7] == ':' && r[|r| - 4] == ','
      && (forall k :: 0 <= k < |r| && k != |r| - 10 && k != |r| - 7 && k != |r| - 4 ==> IsDigit(r[k]))
      && (|r| == 12 <==> TotalMillis(t) < 100 * 3600000)
  {
    var c := Split(TotalMillis(t));
    RenderFields(c);
    Layout(ZeroPad(c.hours, 2), ZeroPad(c.minutes, 2), ZeroPad(c.seconds, 2), ZeroPad(c.millis, 3));
  }

  /** The four padded fields of `RenderClock(c)`, with what each is made of. */
  lemma RenderFields(c: Clock)
    requires c.minutes < 60 && c.seconds < 60 && c.millis < 1000
    ensures var hh, mm, ss, mmm := ZeroPad(c.hours, 2), ZeroPad(c.minutes, 2), ZeroPad(c.seconds, 2), ZeroPad(c.millis, 3);
      && RenderClock(c) == hh + ":" + mm + ":" + ss + "," + mmm
      && |hh| >= 2 && |mm| == 2 && |ss| == 2 && |mmm| == 3
      && (|hh| == 2 <==> c.hours < 100)
      && AllDigits(hh) && AllDigits(mm) && AllDigits(ss) && AllDigits(mmm)
      && Value(hh) == c.hours && Value(mm) == c.minutes && Value(ss) == c.seconds && Value(mmm) == c.millis
  {
    assert Pow10(2) == 100 && Pow10(3) == 1000;
    ZeroPadShape(c.hours, 2);
    ZeroPadShape(c.minutes, 2);
    ZeroPadShape(c.seconds, 2);
    ZeroPadShape(c.millis, 3);
  }

  /** The separators and digit positions of `hh:mm:ss,mmm`, counted from its end. */
  lemma Layout(hh: string, mm: string, ss: string, mmm: string)
    requires |hh| >= 2 && |mm| == 2 && |ss| == 2 && |mmm| == 3
    requires AllDigits(hh) && AllDigits(mm) && AllDigits(ss) && AllDigits(mmm)
    ensures var s := hh + ":" + mm + ":" + ss + "," + mmm; var n := |s|;
      && n == |hh| + 10
      && s[n - 10] == ':' && s[n - 7] == ':' && s[n - 4] == ','
      && (forall k :: 0 <= k < n && k != n - 10 && k != n - 7 && k != n - 4 ==> IsDigit(s[k]))
      && s[..n - 10] == hh && s[n - 9..n - 7] == mm && s[n - 6..n - 4] == ss && s[n - 3..] == mmm
  {
    var s := hh + ":" + mm + ":" + ss + "," + mmm;
    var n := |s|;
    forall k | 0 <= k < n && k != n - 10 && k != n - 7 && k != n - 4
      ensures IsDigit(s[k])
    {
      if k < |hh| { assert s[k] == hh[k]; }
      else if k < n - 7 { assert s[k] == mm[k - |hh| - 1]; }
      else if k < n - 4 { assert s[k] == ss[k - |hh| - 4]; }
      else { assert s[k] == mmm[k - |hh| - 7]; }
    }
  }

  /**
   * Reads a timestamp back: the fields of `HH:MM:SS,mmm` (any number of hour
   * digits) as a count of milliseconds, or `None` when the text is not of
   * that shape.
   */
  function ParseTimestamp(s: string): Option<nat> {
    if |s| < 12 then None
    else
      var n := |s|;
      if s[n - 10] == ':' && s[n - 7] == ':' && s[n - 4] == ','
      then ParseFields(s[..n - 10], s[n - 9..n - 7], s[n - 6..n - 4], s[n - 3..])
      else None
  }

  /** The milliseconds the four digit fields denote, or `None` if one is malformed. */
  function ParseFields(hh: string, mm: string, ss: string, mmm: string): Option<nat> {
    if AllDigits(hh) && AllDigits(mm) && AllDigits(ss) && AllDigits(mmm) && Value(mm) < 60 && Value(ss) < 60
    then Some(Value(hh) * 3600000 + Value(mm) * 60000 + Value(ss) * 1000 + Value(mmm))
    else None
  }

  /** Formatting loses nothing but the clamp: the fields read back to the clamped offset. */
  lemma ParseFormatted(t: Option<int>)
    ensures ParseTimestamp(FormatTimestamp(t)) == Some(TotalMillis(t))
  {
    ReadsBack(TotalMillis(t));
  }

  /** The fields of a rendered count of milliseconds read back to that count. */
  lemma ReadsBack(total: nat)
    ensures ParseTimestamp(RenderClock(Split(total))) == Some(total)
  {
    var c := Split(total);
    RenderFields(c);
    ParseLaidOut(ZeroPad(c.hours, 2), ZeroPad(c.minutes, 2), ZeroPad(c.seconds, 2), ZeroPad(c.millis, 3));
  }

  /** Text laid out as `hh:mm:ss,mmm` parses field by field. */
  lemma ParseLaidOut(hh: string, mm: string, ss: string, mmm: string)
    requires |hh| >= 2 && |mm| == 2 && |ss| == 2 && |mmm| == 3
    requires AllDigits(hh) && AllDigits(mm) && AllDigits(ss) && AllDigits(mmm)
    ensures ParseTimestamp(hh + ":" + mm + ":" + ss + "," + mmm) == ParseFields(hh, mm, ss, mmm)
  {
    Layout(hh, mm, ss, mmm);
  }

  /** An absent offset and every negative offset give the zero timestamp. */
  lemma ClampedToZero(v: int)
    requires v < 0
    ensures FormatTimestamp(None) == "00:00:00,000"
    ensures FormatTimestamp(Some(v)) == "00:00:00,000"
  {
    assert TotalMillis(None) == 0 && TotalMillis(Some(v)) == 0;
    assert Split(0) == Clock(0, 0, 0, 0);
    assert Digits(0) == "0";
    assert ZeroPad(0, 2) == "00" && ZeroPad(0, 3) == "000";
    assert RenderClock(Clock(0, 0, 0, 0)) == "00:00:00,000";
  }

  /** 3725.432 seconds, that is 1 h 2 min 5 s 432 ms, renders as `01:02:05,432`. */
  lemma OneHourTwoMinutesFiveSeconds()
    ensures FormatTimestamp(Some(3725432)) == "01:02:05,432"
  {
    var c := Split(3725432);
    assert c == Clock(1, 2, 5, 432);
    assert Digits(4) == "4" && Digits(43) == "43" && Digits(432) == "432";
    assert ZeroPad(1, 2) == "01" && ZeroPad(2, 2) == "02" && ZeroPad(5, 2) == "05" && ZeroPad(432, 3) == "432";
    assert RenderClock(c) == "01:02:05,432";
  }
}
