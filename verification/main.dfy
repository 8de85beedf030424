/**
  The rate sampler of the measuring pipeline stage: the unit option, the choice between a
  fixed and an automatically detected unit for each report, the rate line, and the
  per-read step that accumulates byte counts and reports once at least one whole second
  has elapsed since the previous report. Time is an input: the wall clock in nanoseconds.
 */
module Measure {
  import opened Wrappers
  import opened Units

  /** The unit chosen at startup: a fixed display unit, or detection per report. */
  datatype SelectedUnit = Fixed(unit: Unit) | Auto

  /** The values the unit option accepts. */
  const UnitOptionValues: set<string> := {"b", "k", "m", "g", "t"}

  /** The option value that names a unit. */
  function UnitLetter(u: Unit): (s: string)
    ensures s in UnitOptionValues
  {
    match u
    case Byte => "b"
    case Kilo => "k"
    case Mega => "m"
    case Giga => "g"
    case Tera => "t"
  }

  /** Maps the unit option, absent or given, to the unit selection. */
  function SelectUnit(value: Option<string>): (sel: SelectedUnit)
    ensures sel.Auto? <==> value.None? || value.value !in UnitOptionValues
    ensures sel.Fixed? ==> value == Some(UnitLetter(sel.unit))
  {
    match value
    case None => Auto
    case Some(v) =>
      if v == "b" then Fixed(Byte)
      else if v == "k" then Fixed(Kilo)
      else if v == "m" then Fixed(Mega)
      else if v == "g" then Fixed(Giga)
      else if v == "t" then Fixed(Tera)
      else Auto
  }

  /** Every unit can be selected by its letter. */
  lemma SelectUnitRoundTrip(u: Unit)
    ensures SelectUnit(Some(UnitLetter(u))) == Fixed(u)
  {
  }

  /**
    The amount print_rate displays for an accumulated count: the count unchanged, in the
    fixed unit as given or in the detected unit. None stands for the panic of detection
    under Auto when the count is at most 1 byte.
   */
  function RateAmount(bytes: nat, sel: SelectedUnit): (r: Option<Amount>)
    ensures r.None? <==> sel.Auto? && bytes <= 1
    ensures r.Some? ==> r.value.bytes == bytes
    ensures r.Some? && sel.Fixed? ==> r.value.unit == sel.unit
    ensures r.Some? && sel.Auto? ==> IsAutoUnit(bytes, r.value.unit)
  {
    match sel
    case Fixed(u) => Some(New(bytes, u))
    case Auto => AutoDetectOutcome(bytes)
  }

  /** One report line: the rendered amount followed by "/s" and a newline. */
  function RateLine(a: Amount): (line: string)
    ensures |line| >= 8 && line[|line| - 3..] == "/s\n"
  {
    Display(a) + "/s\n"
  }

  /** The amount a line reports can be read back from it: its tenths and its unit. */
  lemma RateLineReadsBack(a: Amount)
    ensures var line := RateLine(a);
      ParseDisplay(line[..|line| - 3]) == Some((QuantityTenths(a), a.unit))
  {
    var shown := Display(a);
    DisplayRoundTrip(a);
    assert (shown + "/s\n")[..|shown|] == shown;
  }

  /** Nanoseconds in one second. */
  const NanosPerSecond: int := 1_000_000_000

  /** The whole seconds of a non-negative duration in nanoseconds (truncated). */
  function WholeSeconds(d: nat): nat {
    d / NanosPerSecond
  }

  /** Sampler state: bytes accumulated since the last report and the time of that report. */
  datatype Window = Window(bytesRead: nat, dt: int)

  /** The state the loop starts in. */
  function Start(now: int): (w: Window)
    ensures w.bytesRead == 0 && w.dt == now
  {
    Window(0, now)
  }

  /** One emitted report: the amount it shows, when it was made, and the line written. */
  datatype Report = Report(amount: Amount, at: int, line: string)

  /**
    What one loop iteration leads to: the next state and the report it emitted, if any; or
    a crash, because the clock went backwards and the elapsed duration has no value, or
    because automatic detection panicked on a report of at most 1 byte.
   */
  datatype Outcome = Stepped(next: Window, report: Option<Report>) | ClockWentBack | DetectionPanicked

  /**
    One iteration after a read of `count` bytes at time `now`: add the count, and when at
    least one whole second has elapsed since the last report, report the accumulated count
    and start a new window at `now`.
   */
  function Step(sel: SelectedUnit, w: Window, count: nat, now: int): (o: Outcome)
    ensures o.ClockWentBack? <==> now < w.dt
    ensures o.DetectionPanicked? <==> w.dt + NanosPerSecond <= now && sel.Auto? && w.bytesRead + count <= 1
    ensures o.Stepped? ==> (o.report.Some? <==> now - w.dt >= NanosPerSecond)
    ensures o.Stepped? && o.report.None? ==> o.next == Window(w.bytesRead + count, w.dt)
    ensures o.Stepped? && o.report.Some? ==>
      && o.next == Window(0, now)
      && o.report.value.at == now
      && RateAmount(w.bytesRead + count, sel) == Some(o.report.value.amount)
      && o.report.value.line == RateLine(o.report.value.amount)
  {
    if now < w.dt then ClockWentBack
    else
      var bytesRead := w.bytesRead + count;
      if WholeSeconds(now - w.dt) >= 1 then
        match RateAmount(bytesRead, sel)
        case None => DetectionPanicked
        case Some(a) => Stepped(Window(0, now), Some(Report(a, now, RateLine(a))))
      else
        Stepped(Window(bytesRead, w.dt), None)
  }

  /** A zero-length read inside a window changes nothing: the loop just goes round again. */
  lemma ZeroReadKeepsWindow(sel: SelectedUnit, w: Window, now: int)
    requires w.dt <= now < w.dt + NanosPerSecond
    ensures Step(sel, w, 0, now) == Stepped(w, None)
  {
  }

  /** One read as the loop sees it: how many bytes arrived and the clock right after. */
  datatype Read = Read(count: nat, now: int)

  /** Where a run of events ends: the final state and the reports in emission order. */
  datatype Trace = Trace(last: Window, reports: seq<Report>)

  function TotalRead(events: seq<Read>): nat {
    if |events| == 0 then 0 else events[0].count + TotalRead(events[1..])
  }

  function TotalReported(reports: seq<Report>): nat {
    if |reports| == 0 then 0 else reports[0].amount.bytes + TotalReported(reports[1..])
  }

  /** Every report shows its count as print_rate would, and carries that amount's line. */
  predicate LinesMatch(sel: SelectedUnit, reports: seq<Report>) {
    forall i :: 0 <= i < |reports| ==>
      && RateAmount(reports[i].amount.bytes, sel) == Some(reports[i].amount)
      && reports[i].line == RateLine(reports[i].amount)
  }

  lemma LinesMatchAppend(sel: SelectedUnit, a: seq<Report>, b: seq<Report>)
    requires LinesMatch(sel, a) && LinesMatch(sel, b)
    ensures LinesMatch(sel, a + b)
  {
    forall i | 0 <= i < |a + b|
      ensures RateAmount((a + b)[i].amount.bytes, sel) == Some((a + b)[i].amount)
      ensures (a + b)[i].line == RateLine((a + b)[i].amount)
    {
      if i >= |a| {
        assert (a + b)[i] == b[i - |a|];
      }
    }
  }

  /** The loop driven by a finite sequence of events; None if it crashed on the way. */
  function Run(sel: SelectedUnit, w: Window, events: seq<Read>): (r: Option<Trace>)
    ensures r.Some? ==> |r.value.reports| <= |events| && LinesMatch(sel, r.value.reports)
    decreases |events|
  {
    if |events| == 0 then Some(Trace(w, []))
    else
      match Step(sel, w, events[0].count, events[0].now)
      case ClockWentBack => None
      case DetectionPanicked => None
      case Stepped(next, report) =>
        match Run(sel, next, events[1..])
        case None => None
        case Some(t) =>
          var emitted := if report.Some? then [report.value] else [];
          LinesMatchAppend(sel, emitted, t.reports);
          Some(Trace(t.last, emitted + t.reports))
  }

  /**
    No byte is lost or counted twice: the reported counts plus what is still accumulated
    equal what was accumulated at the start plus everything read.
   */
  lemma {:induction false} RunConservesBytes(sel: SelectedUnit, w: Window, events: seq<Read>)
    requires Run(sel, w, events).Some?
    ensures TotalReported(Run(sel, w, events).value.reports) + Run(sel, w, events).value.last.bytesRead
      == w.bytesRead + TotalRead(events)
    decreases |events|
  {
    if |events| > 0 {
      var o := Step(sel, w, events[0].count, events[0].now);
      RunConservesBytes(sel, o.next, events[1..]);
      var t := Run(sel, o.next, events[1..]).value;
      if o.report.Some? {
        assert ([o.report.value] + t.reports)[1..] == t.reports;
      } else {
        assert [] + t.reports == t.reports;
      }
    }
  }

  /**
    Reads that all arrive less than a second after the last report emit nothing, keep the
    window's start, and only grow the accumulated count.
   */
  lemma {:induction false} RunWithinOneSecondIsQuiet(sel: SelectedUnit, w: Window, events: seq<Read>)
    requires forall i :: 0 <= i < |events| ==> w.dt <= events[i].now < w.dt + NanosPerSecond
    ensures Run(sel, w, events) == Some(Trace(Window(w.bytesRead + TotalRead(events), w.dt), []))
    decreases |events|
  {
    if |events| > 0 {
      var next := Window(w.bytesRead + events[0].count, w.dt);
      assert Step(sel, w, events[0].count, events[0].now) == Stepped(next, None);
      RunWithinOneSecondIsQuiet(sel, next, events[1..]);
    }
  }

  predicate NonDecreasing(events: seq<Read>) {
    forall i, j :: 0 <= i < j < |events| ==> events[i].now <= events[j].now
  }

  /**
    With a fixed unit and a clock that never goes backwards and starts no earlier than the
    window, the loop never crashes.
   */
  lemma {:induction false} RunOnMonotoneClockNeverCrashes(sel: SelectedUnit, w: Window, events: seq<Read>)
    requires sel.Fixed?
    requires NonDecreasing(events)
    requires forall i :: 0 <= i < |events| ==> w.dt <= events[i].now
    ensures Run(sel, w, events).Some?
    decreases |events|
  {
    if |events| > 0 {
      var o := Step(sel, w, events[0].count, events[0].now);
      MonotoneTail(w, o.next, events);
      RunOnMonotoneClockNeverCrashes(sel, o.next, events[1..]);
    }
  }

  /**
    The clock never reads earlier than the start of the window in force, where a window
    restarts at every read a whole second or more after its start. Only the times matter.
   */
  predicate ClockNeverBehindWindow(dt: int, events: seq<Read>)
    decreases |events|
  {
    |events| > 0 ==>
      var next := if events[0].now - dt >= NanosPerSecond then events[0].now else dt;
      dt <= events[0].now && ClockNeverBehindWindow(next, events[1..])
  }

  /** With a fixed unit the loop crashes only on the clock, and exactly when it falls behind the window. */
  lemma {:induction false} FixedUnitCrashesOnlyOnClock(sel: SelectedUnit, w: Window, events: seq<Read>)
    requires sel.Fixed?
    ensures Run(sel, w, events).Some? <==> ClockNeverBehindWindow(w.dt, events)
    decreases |events|
  {
    if |events| > 0 {
      var o := Step(sel, w, events[0].count, events[0].now);
      if o.Stepped? {
        FixedUnitCrashesOnlyOnClock(sel, o.next, events[1..]);
      }
    }
  }

  /** A clock that steps back inside a window does not crash the loop. */
  lemma ClockBackInsideWindowExample()
    ensures !NonDecreasing([Read(1, 500_000_000), Read(1, 300_000_000)])
    ensures Run(Fixed(Byte), Start(0), [Read(1, 500_000_000), Read(1, 300_000_000)]).Some?
  {
    var events := [Read(1, 500_000_000), Read(1, 300_000_000)];
    assert events[1..][1..] == [];
    FixedUnitCrashesOnlyOnClock(Fixed(Byte), Start(0), events);
  }

  /** After the first event the window starts no later than any remaining event. */
  lemma MonotoneTail(w: Window, next: Window, events: seq<Read>)
    requires |events| > 0 && NonDecreasing(events)
    requires forall i :: 0 <= i < |events| ==> w.dt <= events[i].now
    requires next.dt == w.dt || next.dt == events[0].now
    ensures NonDecreasing(events[1..])
    ensures forall i :: 0 <= i < |events[1..]| ==> next.dt <= events[1..][i].now
  {
    forall i | 0 <= i < |events[1..]|
      ensures next.dt <= events[1..][i].now
    {
      assert events[1..][i] == events[i + 1];
    }
  }

  /**
    Whatever the clock does, a run that does not crash makes every report at least one
    second after the previous one (the first, after the start of the window), and its final
    window starts at the last report.
   */
  lemma {:induction false} RunReportsSpaced(sel: SelectedUnit, w: Window, events: seq<Read>)
    requires Run(sel, w, events).Some?
    ensures ReportsSpaced(w.dt, Run(sel, w, events).value.reports)
    ensures LastReportStartsWindow(w.dt, Run(sel, w, events).value)
    decreases |events|
  {
    if |events| > 0 {
      var o := Step(sel, w, events[0].count, events[0].now);
      RunReportsSpaced(sel, o.next, events[1..]);
      var t := Run(sel, o.next, events[1..]).value;
      if o.report.Some? {
        var rs := [o.report.value] + t.reports;
        assert Run(sel, w, events).value == Trace(t.last, rs);
        assert rs[1..] == t.reports;
        SpacedCons(w.dt, o.report.value, t.reports);
      } else {
        assert Run(sel, w, events).value == Trace(t.last, [] + t.reports);
        assert [] + t.reports == t.reports;
      }
    }
  }

  lemma SpacedCons(since: int, r: Report, reports: seq<Report>)
    requires r.at >= since + NanosPerSecond
    requires ReportsSpaced(r.at, reports)
    ensures ReportsSpaced(since, [r] + reports)
  {
    var rs := [r] + reports;
    forall i | 0 < i < |rs|
      ensures rs[i].at >= rs[i - 1].at + NanosPerSecond
    {
      assert rs[i] == reports[i - 1];
      if i > 1 {
        assert rs[i - 1] == reports[i - 2];
      }
    }
  }

  predicate LastReportStartsWindow(since: int, t: Trace) {
    t.last.dt == (if |t.reports| == 0 then since else t.reports[|t.reports| - 1].at)
  }

  /** Each report is at least one second after its predecessor, the first after `since`. */
  predicate ReportsSpaced(since: int, reports: seq<Report>) {
    && (|reports| > 0 ==> reports[0].at >= since + NanosPerSecond)
    && forall i :: 0 < i < |reports| ==> reports[i].at >= reports[i - 1].at + NanosPerSecond
  }

  /**
    Under automatic units the loop panics once input has ended: two zero-length reads a
    second or more apart make a report of at most 1 byte, whatever was accumulated before.
   */
  lemma AutoPanicsAfterInputEnds(w: Window, t1: int, t2: int)
    requires w.dt + NanosPerSecond <= t1 && t1 + NanosPerSecond <= t2
    ensures Run(Auto, w, [Read(0, t1), Read(0, t2)]).None?
  {
    var events := [Read(0, t1), Read(0, t2)];
    var o := Step(Auto, w, 0, t1);
    if o.Stepped? {
      assert o.next == Window(0, t1);
      assert events[1..] == [Read(0, t2)];
      assert Step(Auto, o.next, 0, t2) == DetectionPanicked;
    }
  }

  /** 2048 bytes in a fixed KiB report render as "2.0 KiB/s". */
  lemma KiloRateLineExample()
    ensures RateAmount(2048, Fixed(Kilo)) == Some(Amount(2048, Kilo))
    ensures RateLine(Amount(2048, Kilo)) == "2.0 KiB/s\n"
  {
    assert QuantityTenths(Amount(2048, Kilo)) == 20;
    assert Decimal.NatToString(2) == "2";
    assert Decimal.FormatTenths(20) == "2.0";
    assert Display(Amount(2048, Kilo)) == "2.0 KiB";
  }

  /** Bytes arriving within one window, reported in KiB once the second has passed. */
  lemma KiloWindowExample()
    ensures Run(Fixed(Kilo), Start(0), [Read(1024, 200_000_000), Read(1024, 1_000_000_000)])
      == Some(Trace(Start(1_000_000_000), [Report(Amount(2048, Kilo), 1_000_000_000, "2.0 KiB/s\n")]))
  {
    var events := [Read(1024, 200_000_000), Read(1024, 1_000_000_000)];
    var second := Read(1024, 1_000_000_000);
    var mid := Window(1024, 0);
    assert Run(Fixed(Kilo), Start(0), events) == Run(Fixed(Kilo), mid, [second]) by {
      QuietStepThenRun(Fixed(Kilo), Start(0), events);
      assert events[1..] == [second];
    }
    assert Run(Fixed(Kilo), mid, [second])
      == Some(Trace(Start(1_000_000_000), [Report(Amount(2048, Kilo), 1_000_000_000, "2.0 KiB/s\n")])) by {
      KiloRateLineExample();
      ReportingRead(Fixed(Kilo), mid, second, Amount(2048, Kilo));
    }
  }

  /** A single read past the window reports the accumulated count and starts a fresh window. */
  lemma ReportingRead(sel: SelectedUnit, w: Window, r: Read, a: Amount)
    requires w.dt + NanosPerSecond <= r.now
    requires RateAmount(w.bytesRead + r.count, sel) == Some(a)
    ensures Run(sel, w, [r]) == Some(Trace(Window(0, r.now), [Report(a, r.now, RateLine(a))]))
  {
    var report := Report(a, r.now, RateLine(a));
    var next := Window(0, r.now);
    assert Step(sel, w, r.count, r.now) == Stepped(next, Some(report));
    assert Run(sel, next, [r][1..]) == Some(Trace(next, [])) by {
      assert [r][1..] == [];
    }
    assert [report] + [] == [report];
  }

  /** A step that reports nothing hands its state on to the rest of the run unchanged. */
  lemma QuietStepThenRun(sel: SelectedUnit, w: Window, events: seq<Read>)
    requires |events| > 0 && w.dt <= events[0].now < w.dt + NanosPerSecond
    ensures Run(sel, w, events) == Run(sel, Window(w.bytesRead + events[0].count, w.dt), events[1..])
  {
    var next := Window(w.bytesRead + events[0].count, w.dt);
    assert Step(sel, w, events[0].count, events[0].now) == Stepped(next, None);
    match Run(sel, next, events[1..])
    case None =>
    case Some(t) =>
      assert [] + t.reports == t.reports;
  }
}
