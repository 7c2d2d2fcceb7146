/**
 * SubRip output of `write_subtitles`: the timestamp expression
 * `"0" + str(timedelta(seconds=int(t))) + ",000"`, the cue block, and the file body
 * built by appending one block per segment. A timecode reader and a cue reader are
 * the inverses against which the writer is proved.
 */
module Srt {
  import opened Wrappers
  import opened Decimal
  import opened Sequences

  /** One element of the transcript's segment list. */
  datatype Segment = Segment(id: int, start: real, end: real, text: string)

  /** `int(t)`: truncation toward zero. */
  function Trunc(t: real): (n: int)
    ensures t >= 0.0 ==> 0 <= n && n as real <= t < n as real + 1.0
    ensures t < 0.0 ==> n <= 0 && n as real - 1.0 < t <= n as real
  {
    if t >= 0.0 then t.Floor else -((-t).Floor)
  }

  /** `"%d:%02d:%02d"` of the hours, minutes and seconds in `secs`, as `timedelta` writes its clock part. */
  function Clock(secs: nat): (r: string)
    ensures |r| >= 7
  {
    var minutes := secs / 60;
    Dec(minutes / 60) + ":" + Pad2(minutes % 60) + ":" + Pad2(secs % 60)
  }

  /**
   * `str(timedelta(seconds=n))`: the seconds are split into days and a remainder in
   * [0, 86400) by floor division; a non-zero day count is written in front of the
   * remainder's clock as "N day, " or "N days, ".
   */
  function TimedeltaStr(n: int): (r: string)
    ensures ' ' !in r <==> 0 <= n < 86400
  {
    var days := n / 86400;
    if days == 0 then
      ClockHoldsNoSpace(n % 86400);
      Clock(n % 86400)
    else
      var r := Dec(days) + " day" + (if days == 1 || days == -1 then "" else "s") + ", " + Clock(n % 86400);
      assert r[|Dec(days)|] == ' ';
      r
  }

  /** The clock part holds no space: only digits and ':'. */
  lemma ClockHoldsNoSpace(secs: nat)
    ensures ' ' !in Clock(secs)
  {
    var minutes := secs / 60;
    DigitsHoldNoSeparator(Dec(minutes / 60));
    DigitsHoldNoSeparator(Pad2(minutes % 60));
    DigitsHoldNoSeparator(Pad2(secs % 60));
  }

  /** The timestamp written for `n` whole seconds. */
  function SecondsStamp(n: int): (r: string)
    ensures |r| >= 12 && r[0] == '0'
    ensures r[|r| - 4..] == ",000"
  {
    "0" + TimedeltaStr(n) + ",000"
  }

  /** The timestamp `write_subtitles` writes for a segment boundary at `t` seconds. */
  function Timestamp(t: real): (r: string)
    ensures |r| >= 12 && r[0] == '0'
    ensures r[|r| - 4..] == ",000"
  {
    SecondsStamp(Trunc(t))
  }

  /**
   * Reads an SRT timecode `H...H:MM:SS,mmm` (at least one hour digit, minutes and
   * seconds below 60) as a number of milliseconds.
   */
  function ParseTimecode(s: string): (r: Option<int>)
    ensures r.Some? ==> r.value >= 0
  {
    if |s| < 11 then None
    else
      var k := |s| - 10;
      if s[k] == ':' && s[k + 3] == ':' && s[k + 6] == ','
      then ReadFields(s[..k], s[k + 1..k + 3], s[k + 4..k + 6], s[k + 7..])
      else None
  }

  /** The time in milliseconds given by the digit fields of a timecode. */
  function ReadFields(hours: string, minutes: string, seconds: string, millis: string): (r: Option<int>)
    ensures r.Some? ==> r.value >= 0
  {
    if AllDigits(hours) && AllDigits(minutes) && AllDigits(seconds) && AllDigits(millis)
       && ParseNat(minutes) < 60 && ParseNat(seconds) < 60
    then Some(((ParseNat(hours) * 60 + ParseNat(minutes)) * 60 + ParseNat(seconds)) * 1000 + ParseNat(millis))
    else None
  }

  lemma DivMod60(n: nat)
    ensures n / 60 / 60 == n / 3600
    ensures (n / 3600 * 60 + n / 60 % 60) * 60 + n % 60 == n
  {
    var q, r := n / 3600, n % 3600;
    assert n == 3600 * q + r;
    assert n / 60 == 60 * q + r / 60;
  }

  /** Within one day the timestamp is "0", the hours, then two-digit minutes and seconds. */
  lemma StampWithinDay(n: int)
    requires 0 <= n < 86400
    ensures SecondsStamp(n) == "0" + Dec(n / 3600) + ":" + Pad2(n / 60 % 60) + ":" + Pad2(n % 60) + ",000"
  {
    assert n / 86400 == 0 && n % 86400 == n;
    DivMod60(n);
    assert TimedeltaStr(n) == Clock(n) == Dec(n / 3600) + ":" + Pad2(n / 60 % 60) + ":" + Pad2(n % 60);
    StampShape(Dec(n / 3600), Pad2(n / 60 % 60), Pad2(n % 60));
  }

  /** Proof helper: regroups the concatenation of a timestamp. */
  lemma StampShape(hours: string, mm: string, ss: string)
    ensures "0" + (hours + ":" + mm + ":" + ss) + ",000" == "0" + hours + ":" + mm + ":" + ss + ",000"
  {
  }

  /** Below ten hours the timestamp is the fixed-width `HH:MM:SS,000` of SubRip. */
  lemma StampFixedWidth(n: int)
    requires 0 <= n < 36000
    ensures SecondsStamp(n) == Pad2(n / 3600) + ":" + Pad2(n / 60 % 60) + ":" + Pad2(n % 60) + ",000"
    ensures |SecondsStamp(n)| == 12
  {
    StampWithinDay(n);
  }

  /** Fractions are cut off, never rounded: every instant in [k, k + 1) gets the timestamp of k. */
  lemma TimestampTruncates(t: real, k: nat)
    requires k as real <= t < k as real + 1.0
    ensures Timestamp(t) == SecondsStamp(k)
  {
    assert Trunc(t) == k;
  }

  lemma ZerosAreZero()
    ensures AllDigits("000") && ParseNat("000") == 0
  {
    assert "000"[..2] == "00" && "00"[..1] == "0" && "0"[..0] == "";
  }

  /** Where the fields of an assembled timecode sit. */
  lemma AssembledFields(hours: string, mm: string, ss: string)
    requires |mm| == 2 && |ss| == 2
    ensures var s, k := hours + ":" + mm + ":" + ss + ",000", |hours|;
      |s| - 10 == k && s[k] == ':' && s[k + 3] == ':' && s[k + 6] == ','
      && s[..k] == hours && s[k + 1..k + 3] == mm && s[k + 4..k + 6] == ss && s[k + 7..] == "000"
  {
    var s, k := hours + ":" + mm + ":" + ss + ",000", |hours|;
    assert s[..k] == hours;
    assert s[k + 1..k + 3] == mm;
    assert s[k + 4..k + 6] == ss;
  }

  /** A timecode assembled from digit fields reads back as the time those fields give. */
  lemma ParseAssembled(hours: string, mm: string, ss: string, h: nat, m: nat, sec: nat)
    requires hours != [] && AllDigits(hours) && AllDigits(mm) && AllDigits(ss) && |mm| == 2 && |ss| == 2
    requires ParseNat(hours) == h && ParseNat(mm) == m && ParseNat(ss) == sec && m < 60 && sec < 60
    ensures ParseTimecode(hours + ":" + mm + ":" + ss + ",000") == Some(((h * 60 + m) * 60 + sec) * 1000)
  {
    var s := hours + ":" + mm + ":" + ss + ",000";
    AssembledFields(hours, mm, ss);
    assert ParseTimecode(s) == ReadFields(hours, mm, ss, "000");
    ReadZeroMillis(hours, mm, ss, h, m, sec);
  }

  lemma ReadZeroMillis(hours: string, mm: string, ss: string, h: nat, m: nat, sec: nat)
    requires AllDigits(hours) && AllDigits(mm) && AllDigits(ss)
    requires ParseNat(hours) == h && ParseNat(mm) == m && ParseNat(ss) == sec && m < 60 && sec < 60
    ensures ReadFields(hours, mm, ss, "000") == Some(((h * 60 + m) * 60 + sec) * 1000)
  {
    ZerosAreZero();
  }

  /** A non-digit before the last ten characters means there is no timecode to read. */
  lemma ParseRejectsNonDigitHours(s: string, p: nat)
    requires p < |s| - 10 && !IsDigit(s[p])
    ensures ParseTimecode(s) == None
  {
    assert s[..|s| - 10][p] == s[p];
  }

  /** Within one day the timestamp reads back as its seconds, with zero milliseconds. */
  lemma StampReadsBackWithinDay(n: int)
    requires 0 <= n < 86400
    ensures ParseTimecode(SecondsStamp(n)) == Some(n * 1000)
  {
    StampWithinDay(n);
    DivMod60(n);
    ClockFieldsReadBack(n / 3600, n / 60 % 60, n % 60);
  }

  /** A timecode written from hours, minutes and seconds reads back as their milliseconds. */
  lemma ClockFieldsReadBack(h: nat, m: nat, sec: nat)
    requires m < 60 && sec < 60
    ensures ParseTimecode("0" + Dec(h) + ":" + Pad2(m) + ":" + Pad2(sec) + ",000") == Some(((h * 60 + m) * 60 + sec) * 1000)
  {
    var hours := "0" + Dec(h);
    LeadingZero(Dec(h));
    DecRoundTrip(h);
    Pad2RoundTrip(m);
    Pad2RoundTrip(sec);
    ParseAssembled(hours, Pad2(m), Pad2(sec), h, m, sec);
  }

  /** From one day on, and for negative times, the "N day(s), " form is no SubRip timecode. */
  lemma StampUnreadableOutsideDay(n: int)
    requires !(0 <= n < 86400)
    ensures ParseTimecode(SecondsStamp(n)) == None
  {
    var days := n / 86400;
    var plural := if days == 1 || days == -1 then "" else "s";
    var t := TimedeltaStr(n);
    var tail := " day" + plural + ", " + Clock(n % 86400);
    AppendAssoc(Dec(days), " day" + plural + ", ", Clock(n % 86400));
    AppendAssoc(Dec(days), " day" + plural, ", ");
    AppendAssoc(Dec(days), " day", plural);
    assert t == Dec(days) + tail;
    assert tail[0] == ' ' && |tail| >= 13;
    var s := SecondsStamp(n);
    var p := 1 + |Dec(days)|;
    assert s == "0" + t + ",000";
    assert s[p] == t[p - 1] == tail[0];
    ParseRejectsNonDigitHours(s, p);
  }

  /**
   * The timestamp reads back as a SubRip timecode exactly when the seconds lie within
   * one day, and then as those seconds with zero milliseconds.
   */
  lemma StampReadsBack(n: int)
    ensures ParseTimecode(SecondsStamp(n)).Some? <==> 0 <= n < 86400
    ensures 0 <= n < 86400 ==> ParseTimecode(SecondsStamp(n)) == Some(n * 1000)
  {
    if 0 <= n < 86400 {
      StampReadsBackWithinDay(n);
    } else {
      StampUnreadableOutsideDay(n);
    }
  }

  /** What a reader finds in one cue block: its number, its two times in milliseconds, its text. */
  datatype CueFields = CueFields(number: int, startMs: int, endMs: int, text: string)

  /** `write_subtitles`' block for one segment: the stored id plus one, the times, the text, a blank line. */
  function Cue(segment: Segment): (r: string)
    ensures |r| >= 2 && r[|r| - 2..] == "\n\n"
  {
    Dec(segment.id + 1) + "\n" + Timestamp(segment.start) + " --> " + Timestamp(segment.end) + "\n"
    + segment.text + "\n\n"
  }

  /** `str.find(c)`: the index of the first `c`, or -1. */
  function FirstIndexOf(s: string, c: char): (i: int)
    ensures -1 <= i < |s|
    ensures i >= 0 ==> s[i] == c && c !in s[..i]
    ensures i == -1 ==> c !in s
  {
    if s == [] then -1
    else if s[0] == c then 0
    else
      var j := FirstIndexOf(s[1..], c);
      if j < 0 then -1 else j + 1
  }

  /** Reads a `start --> end` line as two times in milliseconds. */
  function ParseTiming(line: string): Option<(int, int)>
  {
    var sp := FirstIndexOf(line, ' ');
    if sp < 0 || |line| < sp + 5 || line[sp..sp + 5] != " --> " then None
    else
      match (ParseTimecode(line[..sp]), ParseTimecode(line[sp + 5..]))
      case (Some(startMs), Some(endMs)) => Some((startMs, endMs))
      case _ => None
  }

  /**
   * Reads one cue block: a numeral line, a `start --> end` line, then the text, which runs
   * to the block's closing blank line.
   */
  function ParseCue(block: string): Option<CueFields>
  {
    var i := FirstIndexOf(block, '\n');
    if i < 0 || !IsNumeral(block[..i]) then None
    else
      var rest := block[i + 1..];
      var j := FirstIndexOf(rest, '\n');
      if j < 0 then None
      else
        var body := rest[j + 1..];
        if |body| < 2 || body[|body| - 2..] != "\n\n" then None
        else
          match ParseTiming(rest[..j])
          case Some((startMs, endMs)) => Some(CueFields(ParseInt(block[..i]), startMs, endMs, body[..|body| - 2]))
          case None => None
  }

  /** Decimal digits hold neither a line break nor a space. */
  lemma DigitsHoldNoSeparator(s: string)
    requires AllDigits(s)
    ensures '\n' !in s && ' ' !in s
  {
    forall i | 0 <= i < |s|
      ensures s[i] != '\n' && s[i] != ' '
    {
      assert IsDigit(s[i]);
    }
  }

  /** A timestamp within one day holds neither a line break nor a space. */
  lemma StampHoldsNoSeparator(n: int)
    requires 0 <= n < 86400
    ensures '\n' !in SecondsStamp(n) && ' ' !in SecondsStamp(n)
  {
    StampWithinDay(n);
    DigitsHoldNoSeparator(Dec(n / 3600));
    DigitsHoldNoSeparator(Pad2(n / 60 % 60));
    DigitsHoldNoSeparator(Pad2(n % 60));
  }

  /** The first `c` of `prefix + [c] + rest` is the one after `prefix`, when `prefix` holds none. */
  lemma {:induction false} FirstIndexAfter(prefix: string, c: char, rest: string)
    requires c !in prefix
    ensures FirstIndexOf(prefix + [c] + rest, c) == |prefix|
  {
    var s := prefix + [c] + rest;
    if prefix != [] {
      assert s[0] == prefix[0];
      assert s[1..] == prefix[1..] + [c] + rest;
      FirstIndexAfter(prefix[1..], c, rest);
    }
  }

  /** Cutting `prefix + [c] + rest` at its first `c` gives back `prefix` and `rest`. */
  lemma SplitAtFirst(prefix: string, c: char, rest: string)
    requires c !in prefix
    ensures var s := prefix + [c] + rest;
      FirstIndexOf(s, c) == |prefix| && s[..|prefix|] == prefix && s[|prefix| + 1..] == rest
  {
    FirstIndexAfter(prefix, c, rest);
    var s := prefix + [c] + rest;
    assert s[..|prefix|] == prefix;
    assert s[|prefix| + 1..] == rest;
  }

  /** A block assembled from a numeral, two timecodes and a text reads back as those parts. */
  lemma TimingReadsBack(a: string, b: string)
    requires ParseTimecode(a).Some? && ParseTimecode(b).Some? && ' ' !in a
    ensures ParseTiming(a + " --> " + b) == Some((ParseTimecode(a).value, ParseTimecode(b).value))
  {
    var timing := a + " --> " + b;
    assert timing == a + " " + ("--> " + b);
    SplitAtFirst(a, ' ', "--> " + b);
    assert timing[|a|..|a| + 5] == " --> " && timing[|a| + 5..] == b;
  }

  /** Proof helper: regroups the concatenation of a cue block. */
  lemma BlockShape(number: string, a: string, b: string, text: string)
    ensures number + "\n" + a + " --> " + b + "\n" + text + "\n\n"
      == number + "\n" + (a + " --> " + b + "\n" + (text + "\n\n"))
  {
  }

  lemma BlockReadsBack(number: string, a: string, b: string, text: string)
    requires IsNumeral(number) && '\n' !in number
    requires ParseTimecode(a).Some? && ParseTimecode(b).Some? && '\n' !in a && ' ' !in a && '\n' !in b
    ensures ParseCue(number + "\n" + a + " --> " + b + "\n" + text + "\n\n")
      == Some(CueFields(ParseInt(number), ParseTimecode(a).value, ParseTimecode(b).value, text))
  {
    var timing := a + " --> " + b;
    var body := text + "\n\n";
    var rest := timing + "\n" + body;
    BlockShape(number, a, b, text);
    SplitAtFirst(number, '\n', rest);
    SplitAtFirst(timing, '\n', body);
    TimingReadsBack(a, b);
    assert body[|body| - 2..] == "\n\n" && body[..|body| - 2] == text;
  }


  /**
   * A cue block reads back as the segment's stored id plus one, its start and end cut to
   * whole seconds, and its text unchanged, whenever both times lie within one day.
   */
  lemma CueReadsBack(segment: Segment)
    requires 0 <= Trunc(segment.start) < 86400 && 0 <= Trunc(segment.end) < 86400
    ensures ParseCue(Cue(segment))
      == Some(CueFields(segment.id + 1, Trunc(segment.start) * 1000, Trunc(segment.end) * 1000, segment.text))
  {
    NumberLine(segment.id + 1);
    StampLine(segment.start);
    StampLine(segment.end);
    BlockReadsBack(Dec(segment.id + 1), Timestamp(segment.start), Timestamp(segment.end), segment.text);
  }

  /** A cue number reads back and fits on its line. */
  lemma NumberLine(k: int)
    ensures IsNumeral(Dec(k)) && ParseInt(Dec(k)) == k && '\n' !in Dec(k)
  {
    var number := Dec(k);
    DecRoundTripInt(k);
    if k < 0 {
      DigitsHoldNoSeparator(number[1..]);
      assert number == [number[0]] + number[1..];
    } else {
      DigitsHoldNoSeparator(number);
    }
  }

  /** A timestamp within a day reads back and holds neither separator of the timing line. */
  lemma StampLine(t: real)
    requires 0 <= Trunc(t) < 86400
    ensures ParseTimecode(Timestamp(t)) == Some(Trunc(t) * 1000)
    ensures '\n' !in Timestamp(t) && ' ' !in Timestamp(t)
  {
    StampHoldsNoSeparator(Trunc(t));
    StampReadsBack(Trunc(t));
  }

  /** The strings `f` gives for the elements of `xs`, concatenated in order. */
  function ConcatMap<T>(f: T -> string, xs: seq<T>): string
  {
    if xs == [] then "" else f(xs[0]) + ConcatMap(f, xs[1..])
  }

  lemma {:induction false} ConcatMapAppend<T>(f: T -> string, xs: seq<T>, ys: seq<T>)
    ensures ConcatMap(f, xs + ys) == ConcatMap(f, xs) + ConcatMap(f, ys)
  {
    if xs == [] {
      assert xs + ys == ys;
    } else {
      assert (xs + ys)[0] == xs[0];
      assert (xs + ys)[1..] == xs[1..] + ys;
      ConcatMapAppend(f, xs[1..], ys);
    }
  }

  lemma ConcatMapCons<T>(f: T -> string, x: T, tail: seq<T>)
    ensures ConcatMap(f, [x] + tail) == f(x) + ConcatMap(f, tail)
  {
    assert ([x] + tail)[0] == x;
    assert ([x] + tail)[1..] == tail;
  }

  lemma ConcatMapPrefix<T>(f: T -> string, xs: seq<T>, i: nat)
    requires i < |xs|
    ensures ConcatMap(f, xs[..i + 1]) == ConcatMap(f, xs[..i]) + f(xs[i])
  {
    assert xs[..i + 1] == xs[..i] + [xs[i]];
    ConcatMapAppend(f, xs[..i], [xs[i]]);
    ConcatMapCons(f, xs[i], []);
    assert [xs[i]] + [] == [xs[i]];
  }

  lemma ConcatMapAt<T>(f: T -> string, xs: seq<T>, k: nat)
    requires k < |xs|
    ensures ConcatMap(f, xs) == ConcatMap(f, xs[..k]) + f(xs[k]) + ConcatMap(f, xs[k + 1..])
  {
    var pre, rest := xs[..k], xs[k..];
    assert xs == pre + rest;
    ConcatMapAppend(f, pre, rest);
    assert rest == [xs[k]] + xs[k + 1..];
    ConcatMapCons(f, xs[k], xs[k + 1..]);
    AppendAssoc(ConcatMap(f, pre), f(xs[k]), ConcatMap(f, xs[k + 1..]));
  }


  /** The file body: the blocks of all segments, in their given order; empty exactly when there are none. */
  function Serialize(segments: seq<Segment>): (r: string)
    ensures r == "" <==> segments == []
  {
    ConcatMap(Cue, segments)
  }

  /** Serialising two lists one after the other is serialising their concatenation. */
  lemma SerializeAppend(a: seq<Segment>, b: seq<Segment>)
    ensures Serialize(a + b) == Serialize(a) + Serialize(b)
  {
    ConcatMapAppend(Cue, a, b);
  }

  /** The blocks of the first `i + 1` segments are those of the first `i` and then block `i`. */
  lemma SerializeNext(segments: seq<Segment>, i: nat)
    requires i < |segments|
    ensures Serialize(segments[..i + 1]) == Serialize(segments[..i]) + Cue(segments[i])
  {
    ConcatMapPrefix(Cue, segments, i);
  }

  /** Block `k` sits, whole and unchanged, between the blocks of the segments before it and after it. */
  lemma CueAt(segments: seq<Segment>, k: nat)
    requires k < |segments|
    ensures Serialize(segments) == Serialize(segments[..k]) + Cue(segments[k]) + Serialize(segments[k + 1..])
  {
    ConcatMapAt(Cue, segments, k);
  }

  /**
   * `write_subtitles`: one block per segment, appended in order to an initially empty file
   * (the file is opened for writing, which truncates it).
   */
  method WriteSubtitles(segments: seq<Segment>) returns (contents: string)
    ensures contents == Serialize(segments)
  {
    contents := "";
    for i := 0 to |segments|
      invariant contents == Serialize(segments[..i])
    {
      var subtitle := Cue(segments[i]);
      SerializeNext(segments, i);
      contents := contents + subtitle;
    }
    assert segments[..|segments|] == segments;
  }

  /** 75.9 seconds: cut to 75, written with the leading "0" in front of `timedelta`'s "0:01:15". */
  lemma TimestampExampleMinute()
    ensures Timestamp(75.9) == "00:01:15,000"
  {
    assert Trunc(75.9) == 75;
    StampWithinDay(75);
    assert 75 / 3600 == 0 && 75 / 60 % 60 == 1 && 75 % 60 == 15;
    MinuteFields();
  }

  lemma MinuteFields()
    ensures "0" + Dec(0) + ":" + Pad2(1) + ":" + Pad2(15) + ",000" == "00:01:15,000"
  {
    assert Dec(0) == "0";
    assert Pad2(1) == "0" + Dec(1) == "01";
    assert Dec(15) == Dec(1) + [DigitChar(5)] == "15";
  }

  /** One hour, one minute, one second. */
  lemma TimestampExampleHour()
    ensures Timestamp(3661.0) == "01:01:01,000"
  {
    assert Trunc(3661.0) == 3661;
    StampWithinDay(3661);
    assert 3661 / 3600 == 1 && 3661 / 60 % 60 == 1 && 3661 % 60 == 1;
    HourFields();
  }

  lemma HourFields()
    ensures "0" + Dec(1) + ":" + Pad2(1) + ":" + Pad2(1) + ",000" == "01:01:01,000"
  {
    assert Dec(1) == "1";
    assert Pad2(1) == "0" + Dec(1) == "01";
  }

  /** From ten hours on, the leading "0" makes the hour field three digits wide. */
  lemma TimestampExampleTenHours()
    ensures Timestamp(36000.0) == "010:00:00,000"
  {
    assert Trunc(36000.0) == 36000;
    StampWithinDay(36000);
    assert 36000 / 3600 == 10 && 36000 / 60 % 60 == 0 && 36000 % 60 == 0;
    TenHourFields();
  }

  lemma TenHourFields()
    ensures "0" + Dec(10) + ":" + Pad2(0) + ":" + Pad2(0) + ",000" == "010:00:00,000"
  {
    assert Dec(10) == Dec(1) + "0" == "10";
    assert Pad2(0) == "0" + Dec(0) == "00";
  }

  /** At one day `timedelta` switches to its "1 day, " form. */
  lemma TimestampExampleDay()
    ensures Timestamp(86400.0) == "01 day, 0:00:00,000"
  {
    assert Trunc(86400.0) == 86400;
    assert 86400 / 86400 == 1 && 86400 % 86400 == 0;
    assert SecondsStamp(86400) == "0" + (Dec(1) + " day" + "" + ", " + Clock(0)) + ",000";
    DayFields();
  }

  /** Past one day the clock restarts under the day count. */
  lemma TimestampExampleDayAndHour()
    ensures Timestamp(90000.0) == "01 day, 1:00:00,000"
  {
    assert Trunc(90000.0) == 90000;
    assert 90000 / 86400 == 1 && 90000 % 86400 == 3600;
    assert SecondsStamp(90000) == "0" + (Dec(1) + " day" + "" + ", " + Clock(3600)) + ",000";
    DayAndHourFields();
  }

  /** From two days on the day count takes the plural. */
  lemma TimestampExampleTwoDays()
    ensures Timestamp(172800.0) == "02 days, 0:00:00,000"
  {
    assert Trunc(172800.0) == 172800;
    assert 172800 / 86400 == 2 && 172800 % 86400 == 0;
    assert SecondsStamp(172800) == "0" + (Dec(2) + " day" + "s" + ", " + Clock(0)) + ",000";
    TwoDayFields();
  }

  /** A negative time counts days downward from the floor: -1 s is minus one day plus 23:59:59. */
  lemma TimestampExampleNegative()
    ensures Timestamp(-1.0) == "0-1 day, 23:59:59,000"
  {
    assert Trunc(-1.0) == -1;
    assert -1 / 86400 == -1 && -1 % 86400 == 86399;
    assert SecondsStamp(-1) == "0" + (Dec(-1) + " day" + "" + ", " + Clock(86399)) + ",000";
    NegativeFields();
  }

  /** Proof helper: the fields of the 86400 s example. */
  lemma DayFields()
    ensures "0" + (Dec(1) + " day" + "" + ", " + Clock(0)) + ",000" == "01 day, 0:00:00,000"
  {
    DecOne();
    ClockZero();
  }

  /** Proof helper: the fields of the 90000 s example. */
  lemma DayAndHourFields()
    ensures "0" + (Dec(1) + " day" + "" + ", " + Clock(3600)) + ",000" == "01 day, 1:00:00,000"
  {
    DecOne();
    ClockOneHour();
  }

  /** Proof helper: the fields of the 172800 s example. */
  lemma TwoDayFields()
    ensures "0" + (Dec(2) + " day" + "s" + ", " + Clock(0)) + ",000" == "02 days, 0:00:00,000"
  {
    DecTwo();
    ClockZero();
  }

  /** Proof helper: the fields of the -1 s example. */
  lemma NegativeFields()
    ensures "0" + (Dec(-1) + " day" + "" + ", " + Clock(86399)) + ",000" == "0-1 day, 23:59:59,000"
  {
    DecMinusOne();
    ClockLastSecond();
  }

  /** Proof helper. */
  lemma DecOne()
    ensures Dec(1) == "1"
  {
  }

  /** Proof helper. */
  lemma DecTwo()
    ensures Dec(2) == "2"
  {
  }

  /** Proof helper. */
  lemma DecMinusOne()
    ensures Dec(-1) == "-1"
  {
    assert Dec(-1) == "-" + Dec(1);
  }

  /** Proof helper: the clock of midnight. */
  lemma ClockZero()
    ensures Clock(0) == "0:00:00"
  {
    assert Pad2(0) == "0" + Dec(0) == "00";
    assert Dec(0) == "0";
  }

  /** Proof helper: the clock of one hour. */
  lemma ClockOneHour()
    ensures Clock(3600) == "1:00:00"
  {
    assert Clock(3600) == Dec(1) + ":" + Pad2(0) + ":" + Pad2(0);
    assert Pad2(0) == "0" + Dec(0) == "00";
    assert Dec(1) == "1";
  }

  /** Proof helper: the clock of the last second of a day. */
  lemma ClockLastSecond()
    ensures Clock(86399) == "23:59:59"
  {
    assert Clock(86399) == Dec(23) + ":" + Pad2(59) + ":" + Pad2(59);
    LastSecondFields();
  }

  /** Proof helper. */
  lemma LastSecondFields()
    ensures Dec(23) == "23" && Pad2(59) == "59"
  {
    assert Dec(23) == Dec(2) + [DigitChar(3)];
    assert Pad2(59) == Dec(59) == Dec(5) + [DigitChar(9)];
  }
}
