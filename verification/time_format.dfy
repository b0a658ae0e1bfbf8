/** `td_format`: a whole number of seconds as "N day(s) N hour(s) N minute(s)".

    Each period is taken only when the remaining seconds strictly exceed it,
    so exact multiples do not roll up (one day is "24 hours") and anything
    up to a minute renders as the empty string. */
module TimeFormat {
  import opened Strings

  type Positive = n: int | n > 0 witness 1

  datatype Period = Period(name: string, seconds: Positive)

  /** One rendered part of a duration, such as 3 "hour". */
  datatype Segment = Segment(value: nat, unit: string)

  /** The periods of td_format, largest first. */
  const Periods: seq<Period> := [Period("day", 60 * 60 * 24), Period("hour", 60 * 60), Period("minute", 60)]

  /** The whole periods of `p` seconds taken out of `t`, when `t` strictly exceeds `p`. */
  function Taken(t: int, p: Positive): nat { if t > p then t / p else 0 }
  /** The seconds left for the smaller periods. */
  function Left(t: int, p: Positive): int { if t > p then t % p else t }

  /** A segment for a value that is not zero, else nothing. */
  function SegmentIf(value: nat, unit: string): (r: seq<Segment>)
    ensures |r| <= 1 && forall i :: 0 <= i < |r| ==> r[i].value >= 1
  {
    if value > 0 then [Segment(value, unit)] else []
  }

  /** The segments produced by walking the periods `ps` with `seconds` left. */
  function Segments(seconds: int, ps: seq<Period>): (r: seq<Segment>)
    ensures |r| <= |ps|
    ensures forall i :: 0 <= i < |r| ==> r[i].value >= 1
  {
    if |ps| == 0 then []
    else SegmentIf(Taken(seconds, ps[0].seconds), ps[0].name) + Segments(Left(seconds, ps[0].seconds), ps[1..])
  }

  /** "N unit", with an "s" when N is more than one. */
  function SegmentText(s: Segment): string {
    NatToString(s.value) + " " + s.unit + (if s.value > 1 then "s" else "")
  }

  function Texts(segs: seq<Segment>): (r: seq<string>)
    ensures |r| == |segs|
    ensures forall i :: 0 <= i < |segs| ==> r[i] == SegmentText(segs[i])
  {
    seq(|segs|, i requires 0 <= i < |segs| => SegmentText(segs[i]))
  }

  /** The value td_format returns for a duration of `seconds` whole seconds. */
  function TdText(seconds: int): string {
    Join(" ", Texts(Segments(seconds, Periods)))
  }

  lemma TextsAppend(segs: seq<Segment>, seg: Segment)
    ensures Texts(segs + [seg]) == Texts(segs) + [SegmentText(seg)]
  {
  }

  /** The first period either gives a segment and leaves the remainder, or is skipped. */
  lemma SegmentsFirst(seconds: int, ps: seq<Period>)
    requires |ps| > 0
    ensures seconds > ps[0].seconds ==>
      Segments(seconds, ps) == [Segment(seconds / ps[0].seconds, ps[0].name)] + Segments(seconds % ps[0].seconds, ps[1..])
    ensures seconds <= ps[0].seconds ==> Segments(seconds, ps) == Segments(seconds, ps[1..])
  {
    if seconds > ps[0].seconds {
      assert Taken(seconds, ps[0].seconds) > 0;
    }
  }

  /** One step of the loop: the segments found so far, then those of the periods
      still to go, make up the segments of the whole duration. */
  lemma SegmentsStep(done: seq<Segment>, seconds: int, ps: seq<Period>, whole: seq<Segment>)
    requires |ps| > 0 && done + Segments(seconds, ps) == whole
    ensures seconds > ps[0].seconds ==>
      (done + [Segment(seconds / ps[0].seconds, ps[0].name)]) + Segments(seconds % ps[0].seconds, ps[1..]) == whole
    ensures seconds <= ps[0].seconds ==> done + Segments(seconds, ps[1..]) == whole
  {
    SegmentsFirst(seconds, ps);
    if seconds > ps[0].seconds {
      var seg, rest := Segment(seconds / ps[0].seconds, ps[0].name), Segments(seconds % ps[0].seconds, ps[1..]);
      assert done + ([seg] + rest) == (done + [seg]) + rest;
    }
  }

  /** td_format (the loop over the periods). */
  method TdFormat(totalSeconds: int) returns (r: string)
    ensures r == TdText(totalSeconds)
  {
    var seconds := totalSeconds;
    var strings: seq<string> := [];
    ghost var done: seq<Segment> := [];
    for i := 0 to |Periods|
      invariant done + Segments(seconds, Periods[i..]) == Segments(totalSeconds, Periods)
      invariant strings == Texts(done)
    {
      var p := Periods[i];
      SegmentsStep(done, seconds, Periods[i..], Segments(totalSeconds, Periods));
      assert Periods[i..][0] == p && Periods[i..][1..] == Periods[i + 1..];
      if seconds > p.seconds {
        var value, rest := seconds / p.seconds, seconds % p.seconds;
        TextsAppend(done, Segment(value, p.name));
        strings := strings + [SegmentText(Segment(value, p.name))];
        done := done + [Segment(value, p.name)];
        seconds := rest;
      }
    }
    assert Periods[|Periods|..] == [];
    assert done + [] == done;
    r := Join(" ", strings);
  }

  // ---------------------------------------------------------------------
  // The three steps written out

  function Days(s: int): nat { Taken(s, 86400) }
  function AfterDays(s: int): int { Left(s, 86400) }
  function Hours(s: int): nat { Taken(AfterDays(s), 3600) }
  function AfterHours(s: int): int { Left(AfterDays(s), 3600) }
  function Minutes(s: int): nat { Taken(AfterHours(s), 60) }
  /** The seconds td_format drops. */
  function Rest(s: int): int { Left(AfterHours(s), 60) }

  /** Three periods in turn, each taken out of what the previous one left. */
  lemma ThreeSteps(t: int, ps: seq<Period>)
    requires |ps| == 3
    ensures var t1 := Left(t, ps[0].seconds); var t2 := Left(t1, ps[1].seconds);
      Segments(t, ps) ==
        SegmentIf(Taken(t, ps[0].seconds), ps[0].name) +
        SegmentIf(Taken(t1, ps[1].seconds), ps[1].name) +
        SegmentIf(Taken(t2, ps[2].seconds), ps[2].name)
  {
    var t1 := Left(t, ps[0].seconds);
    var t2 := Left(t1, ps[1].seconds);
    assert ps[1..][0] == ps[1] && ps[1..][1..] == ps[2..];
    assert ps[2..][0] == ps[2] && ps[2..][1..] == [];
    assert Segments(t, ps) == SegmentIf(Taken(t, ps[0].seconds), ps[0].name) + Segments(t1, ps[1..]);
    assert Segments(t1, ps[1..]) == SegmentIf(Taken(t1, ps[1].seconds), ps[1].name) + Segments(t2, ps[2..]);
    assert Segments(t2, ps[2..]) == SegmentIf(Taken(t2, ps[2].seconds), ps[2].name) + Segments(Left(t2, ps[2].seconds), []);
  }

  /** The segments are the non-zero days, hours and minutes, in that order. */
  lemma TdSegments(s: int)
    ensures Segments(s, Periods) ==
      SegmentIf(Days(s), "day") + SegmentIf(Hours(s), "hour") + SegmentIf(Minutes(s), "minute")
  {
    ThreeSteps(s, Periods);
  }

  /** Nothing is lost but the dropped seconds, and no unit overflows its neighbour
      by more than one whole step: hours at most 24, minutes at most 60,
      at most 60 seconds dropped. */
  lemma TdBreakdown(s: int)
    ensures Days(s) * 86400 + Hours(s) * 3600 + Minutes(s) * 60 + Rest(s) == s
    ensures Hours(s) <= 24 && Minutes(s) <= 60 && Rest(s) <= 60
    ensures s > 60 ==> 0 <= Rest(s)
    ensures s <= 60 ==> Days(s) == 0 && Hours(s) == 0 && Minutes(s) == 0 && Rest(s) == s
  {
    var t1 := AfterDays(s);
    assert Days(s) * 86400 + t1 == s;
    var t2 := AfterHours(s);
    assert Hours(s) * 3600 + t2 == t1;
    assert Minutes(s) * 60 + Rest(s) == t2;
  }

  /** td_format returns "" exactly for durations of at most 60 seconds, negative ones included. */
  lemma TdTextEmptyIff(s: int)
    ensures TdText(s) == "" <==> s <= 60
  {
    TdSegments(s);
    var segs := Segments(s, Periods);
    if s > 60 {
      assert |segs| > 0;
      var first := Texts(segs)[0];
      assert first == SegmentText(segs[0]);
      assert |first| > 0;
    }
  }

  /** The segments come in the order day, hour, minute, each one at least 1. */
  lemma TdSegmentOrder(s: int)
    ensures var segs := Segments(s, Periods);
      (forall i :: 0 <= i < |segs| ==> segs[i].value >= 1 && segs[i].unit in ["day", "hour", "minute"]) &&
      (forall i, j :: 0 <= i < j < |segs| ==> UnitRank(segs[i].unit) < UnitRank(segs[j].unit))
  {
    TdSegments(s);
  }

  function UnitRank(u: string): nat {
    if u == "day" then 0 else if u == "hour" then 1 else 2
  }

  /** A segment's text ends in "s" exactly when its value is more than one. */
  lemma SegmentPlural(seg: Segment)
    requires seg.unit in ["day", "hour", "minute"]
    ensures var t := SegmentText(seg); |t| > 0 && (t[|t| - 1] == 's' <==> seg.value > 1)
  {
  }

  /** The text for the given numbers of days, hours and minutes. */
  function ClosedText(d: nat, h: nat, m: nat): string {
    Join(" ", Texts(SegmentIf(d, "day") + SegmentIf(h, "hour") + SegmentIf(m, "minute")))
  }

  /** td_format is the text of the duration's days, hours and minutes. */
  lemma TdTextIs(s: int)
    ensures TdText(s) == ClosedText(Days(s), Hours(s), Minutes(s))
  {
    TdSegments(s);
  }

  /** The breakdowns of the durations the examples below use. */
  lemma ExampleBreakdowns()
    ensures Days(61) == 0 && Hours(61) == 0 && Minutes(61) == 1
    ensures Days(3600) == 0 && Hours(3600) == 0 && Minutes(3600) == 60
    ensures Days(3661) == 0 && Hours(3661) == 1 && Minutes(3661) == 1
    ensures Days(86400) == 0 && Hours(86400) == 24 && Minutes(86400) == 0
    ensures Days(90000) == 1 && Hours(90000) == 0 && Minutes(90000) == 60
    ensures Days(172800) == 2 && Hours(172800) == 0 && Minutes(172800) == 0
  {
  }

  lemma OneUnitText(unit: string)
    ensures SegmentText(Segment(1, unit)) == "1 " + unit
  {
    assert NatToString(1) == "1";
  }

  lemma TwoDigitText(n: nat, unit: string)
    requires 10 <= n < 100
    ensures SegmentText(Segment(n, unit)) == [DigitChar(n / 10), DigitChar(n % 10)] + " " + unit + "s"
  {
    assert NatToString(n / 10) == [DigitChar(n / 10)];
  }

  /** The texts of the single-unit segments the examples below use. */
  lemma OneUnitTexts()
    ensures SegmentText(Segment(1, "minute")) == "1 minute"
    ensures SegmentText(Segment(1, "hour")) == "1 hour"
    ensures SegmentText(Segment(1, "day")) == "1 day"
  {
    OneUnitText("minute");
    OneUnitText("hour");
    OneUnitText("day");
  }

  /** The texts of the larger segments the examples below use. */
  lemma ManyUnitTexts()
    ensures SegmentText(Segment(60, "minute")) == "60 minutes"
    ensures SegmentText(Segment(24, "hour")) == "24 hours"
    ensures SegmentText(Segment(2, "day")) == "2 days"
  {
    TwoDigitText(60, "minute");
    TwoDigitText(24, "hour");
    assert NatToString(2) == "2";
  }

  /** One segment renders as its text. */
  lemma OneSegmentText(seg: Segment, a: string)
    requires SegmentText(seg) == a
    ensures Join(" ", Texts([seg])) == a
  {
    assert Texts([seg]) == [a];
  }

  /** Two segments render as their two texts joined by a space. */
  lemma TwoSegmentsText(segs: seq<Segment>, a: string, b: string)
    requires |segs| == 2
    requires SegmentText(segs[0]) == a
    requires SegmentText(segs[1]) == b
    ensures Join(" ", Texts(segs)) == a + " " + b
  {
    assert Texts(segs) == [a, b];
    assert Texts(segs)[1..] == [b];
  }

  /** Anything up to a minute, negative durations included, renders as "". */
  lemma TdTextUnderAMinute()
    ensures TdText(59) == "" && TdText(60) == "" && TdText(-5) == ""
  {
    TdTextEmptyIff(59);
    TdTextEmptyIff(60);
    TdTextEmptyIff(-5);
  }

  lemma OneMinuteText()
    ensures ClosedText(0, 0, 1) == "1 minute"
  {
    assert SegmentIf(0, "day") + SegmentIf(0, "hour") + SegmentIf(1, "minute") == [Segment(1, "minute")];
    OneUnitTexts();
    OneSegmentText(Segment(1, "minute"), "1 minute");
  }

  lemma SixtyMinutesText()
    ensures ClosedText(0, 0, 60) == "60 minutes"
  {
    assert SegmentIf(0, "day") + SegmentIf(0, "hour") + SegmentIf(60, "minute") == [Segment(60, "minute")];
    ManyUnitTexts();
    OneSegmentText(Segment(60, "minute"), "60 minutes");
  }

  lemma HourAndMinuteText()
    ensures ClosedText(0, 1, 1) == "1 hour 1 minute"
  {
    var segs := [Segment(1, "hour"), Segment(1, "minute")];
    assert SegmentIf(0, "day") + SegmentIf(1, "hour") + SegmentIf(1, "minute") == segs;
    OneUnitTexts();
    TwoSegmentsText(segs, "1 hour", "1 minute");
  }

  lemma TwentyFourHoursText()
    ensures ClosedText(0, 24, 0) == "24 hours"
  {
    assert SegmentIf(0, "day") + SegmentIf(24, "hour") + SegmentIf(0, "minute") == [Segment(24, "hour")];
    ManyUnitTexts();
    OneSegmentText(Segment(24, "hour"), "24 hours");
  }

  lemma DayAndSixtyMinutesText()
    ensures ClosedText(1, 0, 60) == "1 day 60 minutes"
  {
    var segs := [Segment(1, "day"), Segment(60, "minute")];
    assert SegmentIf(1, "day") + SegmentIf(0, "hour") + SegmentIf(60, "minute") == segs;
    OneUnitTexts();
    ManyUnitTexts();
    TwoSegmentsText(segs, "1 day", "60 minutes");
  }

  lemma TwoDaysText()
    ensures ClosedText(2, 0, 0) == "2 days"
  {
    assert SegmentIf(2, "day") + SegmentIf(0, "hour") + SegmentIf(0, "minute") == [Segment(2, "day")];
    ManyUnitTexts();
    OneSegmentText(Segment(2, "day"), "2 days");
  }

  lemma TdTextOneMinute()
    ensures TdText(61) == "1 minute"
  {
    TdTextIs(61);
    ExampleBreakdowns();
    OneMinuteText();
  }

  /** One hour exactly does not roll up into hours. */
  lemma TdTextOneHour()
    ensures TdText(3600) == "60 minutes"
  {
    TdTextIs(3600);
    ExampleBreakdowns();
    SixtyMinutesText();
  }

  lemma TdTextHourAndMinute()
    ensures TdText(3661) == "1 hour 1 minute"
  {
    TdTextIs(3661);
    ExampleBreakdowns();
    HourAndMinuteText();
  }

  /** One day exactly does not roll up into days. */
  lemma TdTextOneDay()
    ensures TdText(86400) == "24 hours"
  {
    TdTextIs(86400);
    ExampleBreakdowns();
    TwentyFourHoursText();
  }

  lemma TdTextDayAndHour()
    ensures TdText(90000) == "1 day 60 minutes"
  {
    TdTextIs(90000);
    ExampleBreakdowns();
    DayAndSixtyMinutesText();
  }

  lemma TdTextTwoDays()
    ensures TdText(172800) == "2 days"
  {
    TdTextIs(172800);
    ExampleBreakdowns();
    TwoDaysText();
  }
}
