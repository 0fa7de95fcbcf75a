/** `plot_event_flows.py`: one `EventSeries` per event pattern, with the stamp
    of the first timestamped line as the time origin, bucketed into fixed-width
    windows for a per-window event count, and the clamp of the plotted x axis. */
module EventFlows {
  import opened Outcomes
  import opened Text
  import opened TraceLine
  import KvmEvents

  const USEC_PER_MSEC: int := 1000

  /** The same pattern and stamps as `parse_kvm_event.py`'s series (`base`),
      plus `firstEvent`, the stamp taken as the origin of the time series. */
  datatype EventSeries = EventSeries(base: KvmEvents.EventSeries, firstEvent: Option<int>)

  function NewSeries(pattern: string): EventSeries {
    EventSeries(KvmEvents.NewSeries(pattern), None)
  }

  /** Python truthiness of `self.first_event`: both None and 0 are false. */
  predicate Unset(firstEvent: Option<int>) {
    firstEvent.None? || firstEvent == Some(0)
  }

  /** `EventSeries.try_add`: the first timestamped line (matching or not)
      sets the origin; the rest is the other script's `try_add`. */
  function TryAdd(s: EventSeries, line: string): (r: Result<EventSeries>)
    ensures r.Ok? <==> !Contains(line, s.base.pattern) || ParseTime(line).Some?
    ensures r.Err? ==> r.error == WrongFormat
    ensures r.Ok? ==> r.value.base == KvmEvents.TryAdd(s.base, line).value
    ensures r.Ok? && (!Unset(s.firstEvent) || ParseTime(line).None?) ==> r.value.firstEvent == s.firstEvent
    ensures r.Ok? && Unset(s.firstEvent) && ParseTime(line).Some? ==>
              r.value.firstEvent == Some(Micros(ParseTime(line).value))
  {
    var first := if Unset(s.firstEvent) && ParseTime(line).Some?
                 then Some(Micros(ParseTime(line).value)) else s.firstEvent;
    var base :- KvmEvents.TryAdd(s.base, line);
    Ok(EventSeries(base, first))
  }

  /** `try_add` over the lines of a trace file, stopping at the first exit. */
  function Collect(s: EventSeries, lines: seq<string>): Result<EventSeries>
    decreases |lines|
  {
    if |lines| == 0 then Ok(s)
    else
      var next :- TryAdd(s, lines[0]);
      Collect(next, lines[1..])
  }

  /** The origin does not change which lines make the script exit, nor the
      stamps: collecting is the other script's collecting, plus `firstEvent`. */
  lemma {:induction false} CollectBase(s: EventSeries, lines: seq<string>)
    ensures Collect(s, lines).Ok? <==> KvmEvents.Collect(s.base, lines).Ok?
    ensures Collect(s, lines).Ok? ==> Collect(s, lines).value.base == KvmEvents.Collect(s.base, lines).value
    decreases |lines|
  {
    if |lines| > 0 && TryAdd(s, lines[0]).Ok? {
      CollectBase(TryAdd(s, lines[0]).value, lines[1..]);
    }
  }

  /** Collecting succeeds exactly when no line containing the pattern lacks a
      timestamp, and then appends the stamps of the matching lines in order. */
  lemma CollectEvents(s: EventSeries, lines: seq<string>)
    ensures Collect(s, lines).Ok? <==> WellFormed(s.base.pattern, lines)
    ensures Collect(s, lines).Ok? ==>
              Collect(s, lines).value.base == KvmEvents.EventSeries(s.base.pattern, s.base.events + Stamps(s.base.pattern, lines))
  {
    CollectBase(s, lines);
    KvmEvents.CollectEvents(s.base, lines);
  }

  /** Reference for the origin: the stamp of the first line whose timestamp is
      non-zero (a zero stamp does not stick, since 0 is false in Python). */
  function FirstNonzeroStamp(lines: seq<string>): (r: Option<int>)
    ensures r.Some? ==> r.value != 0
  {
    if |lines| == 0 then None
    else
      match ParseTime(lines[0])
      case Some(t) => if Micros(t) != 0 then Some(Micros(t)) else FirstNonzeroStamp(lines[1..])
      case None => FirstNonzeroStamp(lines[1..])
  }

  predicate AnyTimestamp(lines: seq<string>) {
    exists i :: 0 <= i < |lines| && ParseTime(lines[i]).Some?
  }

  /** The origin after a trace: a set origin is kept; otherwise it is the first
      non-zero stamp of any timestamped line, matching the pattern or not; 0 if
      every timestamped line reads as 0; unchanged if no line has a timestamp. */
  lemma {:induction false} CollectFirstEvent(s: EventSeries, lines: seq<string>)
    requires Collect(s, lines).Ok?
    ensures !Unset(s.firstEvent) ==> Collect(s, lines).value.firstEvent == s.firstEvent
    ensures Unset(s.firstEvent) && FirstNonzeroStamp(lines).Some? ==>
              Collect(s, lines).value.firstEvent == FirstNonzeroStamp(lines)
    ensures Unset(s.firstEvent) && FirstNonzeroStamp(lines).None? && AnyTimestamp(lines) ==>
              Collect(s, lines).value.firstEvent == Some(0)
    ensures !AnyTimestamp(lines) ==> Collect(s, lines).value.firstEvent == s.firstEvent
    decreases |lines|
  {
    if |lines| > 0 {
      var next := TryAdd(s, lines[0]).value;
      CollectFirstEvent(next, lines[1..]);
      assert AnyTimestamp(lines) <==> ParseTime(lines[0]).Some? || AnyTimestamp(lines[1..]) by {
        if AnyTimestamp(lines[1..]) {
          var i :| 0 <= i < |lines[1..]| && ParseTime(lines[1..][i]).Some?;
          assert lines[1..][i] == lines[i + 1];
        }
        if AnyTimestamp(lines) && ParseTime(lines[0]).None? {
          var i :| 0 <= i < |lines| && ParseTime(lines[i]).Some?;
          assert lines[i] == lines[1..][i - 1];
        }
      }
    }
  }

  /** `get_throughput`: the same count-over-span computation as `get_rate`. */
  function Throughput(s: EventSeries): (r: Result<real>)
    ensures r.Ok? <==> |s.base.events| > 0 && Duration(s.base.events) != 0
    ensures |s.base.events| == 0 ==> r == Err(NoEvent)
    ensures r.Ok? ==> r.value * (Duration(s.base.events) as real) == (|s.base.events| * USEC_PER_SEC) as real
  {
    Rate(s.base.events)
  }

  // ---------------------------------------------------------------------
  // get_time_series

  function Sum(xs: seq<int>): int {
    if |xs| == 0 then 0 else Sum(xs[..|xs| - 1]) + xs[|xs| - 1]
  }

  predicate NonNegative(xs: seq<int>) {
    forall i :: 0 <= i < |xs| ==> xs[i] >= 0
  }

  function Zeros(n: nat): (z: seq<int>)
    ensures |z| == n && forall i :: 0 <= i < n ==> z[i] == 0
  {
    seq(n, i => 0)
  }

  /** The state of the bucketing loop: emitted counts, the open window
      `[winStart, winEnd)` and the count of events in it so far. */
  datatype Sweep = Sweep(ts: seq<int>, winStart: int, winEnd: int, count: int)

  /** One pass of the `for evt in self.events` body. */
  function Step(s: Sweep, width: int, evt: int): Sweep {
    if evt >= s.winStart then
      if evt < s.winEnd then s.(count := s.count + 1)
      else Sweep(s.ts + [s.count], s.winEnd, s.winEnd + width, 0)
    else s
  }

  function Fold(s: Sweep, width: int, events: seq<int>): Sweep
    decreases |events|
  {
    if |events| == 0 then s else Fold(Step(s, width, events[0]), width, events[1..])
  }

  /** How many times the leading `while self.events[0] > win_end` loop runs:
      the number of whole windows that end before the first event. */
  function LeadingWindows(first: int, width: int, e0: int): (k: nat)
    requires width > 0 || e0 <= first + width
    ensures e0 <= first + (k + 1) * width
    ensures k > 0 ==> first + k * width < e0
  {
    if e0 <= first + width then 0
    else
      var d := e0 - first - 1;
      var k := d / width;
      assert k * width <= d < k * width + width;
      k
  }

  /** Those two bounds pin the count down: no other number of windows fits. */
  lemma LeadingWindowsUnique(first: int, width: int, e0: int, k: nat)
    requires width > 0 || e0 <= first + width
    requires e0 <= first + (k + 1) * width
    requires k > 0 ==> first + k * width < e0
    ensures k == LeadingWindows(first, width, e0)
  {
    var j := LeadingWindows(first, width, e0);
    if width > 0 {
      if k > 0 {
        MulLess(k, j + 1, width);
      }
      if j > 0 {
        MulLess(j, k + 1, width);
      }
    }
  }

  lemma MulLess(a: nat, b: nat, width: int)
    requires width > 0 && a * width < b * width
    ensures a < b
  {
    if a >= b {
      MulMonotone2(b, a, width);
    }
  }

  lemma MulMonotone2(a: nat, b: nat, width: int)
    requires a <= b && width > 0
    ensures a * width <= b * width
  {
    assert b * width == a * width + (b - a) * width;
  }

  /** The loop state once the leading windows have been emitted as zeros. */
  function Opening(first: int, width: int, e0: int): Sweep
    requires width > 0 || e0 <= first + width
  {
    var k := LeadingWindows(first, width, e0);
    Sweep(Zeros(k), first + k * width, first + (k + 1) * width, 0)
  }

  function RunSweep(first: int, events: seq<int>, width: int): Sweep
    requires |events| > 0
    requires width > 0 || events[0] <= first + width
  {
    Fold(Opening(first, width, events[0]), width, events)
  }

  /** `EventSeries.get_time_series(resolution)`: counts per window of
      `resolution` milliseconds from `first_event`. A missing origin is
      Python's TypeError (`None + int`), no events its IndexError, and a
      non-positive width the leading loop never leaves once the first event
      lies beyond the first window. */
  function TimeSeries(firstEvent: Option<int>, events: seq<int>, resolution: int): (r: Result<seq<int>>)
    ensures r.Ok? <==> && firstEvent.Some? && |events| > 0
                       && (resolution > 0 || events[0] <= firstEvent.value + resolution * USEC_PER_MSEC)
    ensures firstEvent.None? ==> r == Err(TypeError)
    ensures firstEvent.Some? && |events| == 0 ==> r == Err(IndexError)
  {
    if firstEvent.None? then Err(TypeError)
    else if |events| == 0 then Err(IndexError)
    else
      var width := resolution * USEC_PER_MSEC;
      if width <= 0 && events[0] > firstEvent.value + width then Err(Diverges)
      else Ok(RunSweep(firstEvent.value, events, width).ts)
  }

  /** The two loops of `get_time_series`, as written. */
  method GetTimeSeries(firstEvent: Option<int>, events: seq<int>, resolution: int) returns (r: Result<seq<int>>)
    ensures r == TimeSeries(firstEvent, events, resolution)
  {
    if firstEvent.None? {
      return Err(TypeError);
    }
    var first := firstEvent.value;
    var width := resolution * USEC_PER_MSEC;
    var ts: seq<int> := [];
    var winStart := first;
    var winEnd := first + width;
    if |events| == 0 {
      return Err(IndexError);
    }
    if width <= 0 && events[0] > winEnd {
      return Err(Diverges);
    }
    while events[0] > winEnd
      invariant width > 0 || events[0] <= winEnd
      invariant ts == Zeros(|ts|)
      invariant winStart == first + |ts| * width
      invariant winEnd == winStart + width
      invariant |ts| > 0 ==> winStart < events[0]
      decreases events[0] - winEnd
    {
      ts := ts + [0];
      winStart := winEnd;
      winEnd := winEnd + width;
    }
    LeadingWindowsUnique(first, width, events[0], |ts|);
    var count := 0;
    var i := 0;
    while i < |events|
      invariant 0 <= i <= |events|
      invariant Fold(Sweep(ts, winStart, winEnd, count), width, events[i..]) == RunSweep(first, events, width)
    {
      var evt := events[i];
      assert events[i..][1..] == events[i + 1..];
      if evt >= winStart {
        if evt < winEnd {
          count := count + 1;
        } else {
          ts := ts + [count];
          count := 0;
          winStart := winEnd;
          winEnd := winEnd + width;
        }
      }
      i := i + 1;
    }
    return Ok(ts);
  }

  /** Folding over one more event is one more loop pass. */
  lemma {:induction false} FoldSnoc(s: Sweep, width: int, events: seq<int>, e: int)
    ensures Fold(s, width, events + [e]) == Step(Fold(s, width, events), width, e)
    decreases |events|
  {
    if |events| == 0 {
      assert events + [e] == [e];
    } else {
      assert (events + [e])[1..] == events[1..] + [e];
      FoldSnoc(Step(s, width, events[0]), width, events[1..], e);
    }
  }

  /** Every window is `width` wide and starts where the previous one ended:
      the open window is always the `|ts|`-th window after `origin`. */
  lemma {:induction false} FoldKeepsWindows(s: Sweep, width: int, events: seq<int>, origin: int)
    requires s.winEnd == s.winStart + width
    requires s.winStart == origin + |s.ts| * width
    ensures Fold(s, width, events).winEnd == Fold(s, width, events).winStart + width
    ensures Fold(s, width, events).winStart == origin + |Fold(s, width, events).ts| * width
    decreases |events|
  {
    if |events| > 0 {
      var t := Step(s, width, events[0]);
      if t.ts != s.ts {
        assert t.winStart == origin + (|s.ts| + 1) * width;
      }
      FoldKeepsWindows(t, width, events[1..], origin);
    }
  }

  lemma SumSnoc(xs: seq<int>, x: int)
    ensures Sum(xs + [x]) == Sum(xs) + x
  {
    assert (xs + [x])[..|xs|] == xs;
  }

  /** Each event adds at most one to the counts or closes one window, never
      both: emitted counts plus windows plus the open count grow by at most
      one per event, and nothing already emitted changes. */
  lemma {:induction false} FoldAccounting(s: Sweep, width: int, events: seq<int>)
    requires s.count >= 0 && NonNegative(s.ts)
    ensures var f := Fold(s, width, events);
            && f.count >= 0 && NonNegative(f.ts)
            && |s.ts| <= |f.ts| && f.ts[..|s.ts|] == s.ts
            && Sum(f.ts) + |f.ts| + f.count <= Sum(s.ts) + |s.ts| + s.count + |events|
    decreases |events|
  {
    if |events| > 0 {
      var t := Step(s, width, events[0]);
      if t.ts != s.ts {
        SumSnoc(s.ts, s.count);
      }
      FoldAccounting(t, width, events[1..]);
      var f := Fold(t, width, events[1..]);
      assert f.ts[..|s.ts|] == f.ts[..|t.ts|][..|s.ts|];
    }
  }

  lemma SumZeros(n: nat)
    ensures Sum(Zeros(n)) == 0
  {
    if n > 0 {
      assert Zeros(n)[..n - 1] == Zeros(n - 1);
      SumZeros(n - 1);
    }
  }

  /** The shape of a time series: one leading zero per window that ends
      before the first event, no negative count, and at most one emitted
      window or counted event per event. */
  lemma SeriesShape(first: int, events: seq<int>, resolution: int, ts: seq<int>)
    requires TimeSeries(Some(first), events, resolution) == Ok(ts)
    ensures var k := LeadingWindows(first, resolution * USEC_PER_MSEC, events[0]);
            && k <= |ts| && ts[..k] == Zeros(k)
            && NonNegative(ts)
            && Sum(ts) + |ts| <= k + |events|
  {
    var width := resolution * USEC_PER_MSEC;
    var o := Opening(first, width, events[0]);
    FoldAccounting(o, width, events);
    SumZeros(|o.ts|);
  }

  /** The open window after `events` is the `|ts|`-th window. */
  lemma OpenWindow(first: int, events: seq<int>, resolution: int, ts: seq<int>)
    requires TimeSeries(Some(first), events, resolution) == Ok(ts)
    ensures var s := RunSweep(first, events, resolution * USEC_PER_MSEC);
            && s.ts == ts
            && s.winStart == first + |ts| * (resolution * USEC_PER_MSEC)
            && s.winEnd == s.winStart + resolution * USEC_PER_MSEC
  {
    var width := resolution * USEC_PER_MSEC;
    var o := Opening(first, width, events[0]);
    FoldKeepsWindows(o, width, events, first);
  }

  /** The count of the last, still open window is never emitted: a further
      event inside that window adds one to that count and leaves the result
      as it was. */
  lemma OpenWindowDropped(first: int, events: seq<int>, resolution: int, ts: seq<int>, e: int)
    requires TimeSeries(Some(first), events, resolution) == Ok(ts)
    requires first + |ts| * (resolution * USEC_PER_MSEC) <= e < first + (|ts| + 1) * (resolution * USEC_PER_MSEC)
    ensures TimeSeries(Some(first), events + [e], resolution) == Ok(ts)
    ensures var width := resolution * USEC_PER_MSEC;
            var s := RunSweep(first, events, width);
            RunSweep(first, events + [e], width) == s.(count := s.count + 1)
  {
    var width := resolution * USEC_PER_MSEC;
    OpenWindow(first, events, resolution, ts);
    assert (events + [e])[0] == events[0];
    FoldSnoc(Opening(first, width, events[0]), width, events, e);
  }

  /** An event before the open window is skipped: neither the series nor
      the open window's count changes. */
  lemma StaleEventSkipped(first: int, events: seq<int>, resolution: int, ts: seq<int>, e: int)
    requires TimeSeries(Some(first), events, resolution) == Ok(ts)
    requires e < first + |ts| * (resolution * USEC_PER_MSEC)
    ensures TimeSeries(Some(first), events + [e], resolution) == Ok(ts)
    ensures var width := resolution * USEC_PER_MSEC;
            RunSweep(first, events + [e], width) == RunSweep(first, events, width)
  {
    var width := resolution * USEC_PER_MSEC;
    OpenWindow(first, events, resolution, ts);
    assert (events + [e])[0] == events[0];
    FoldSnoc(Opening(first, width, events[0]), width, events, e);
  }

  /** An event at or past the end of the open window closes exactly that one
      window, however far ahead it lies, and is not counted itself: the next
      window starts with count 0 even when the event falls inside it. */
  lemma ClosingEventNotCounted(first: int, events: seq<int>, resolution: int, ts: seq<int>, e: int)
    requires TimeSeries(Some(first), events, resolution) == Ok(ts)
    requires resolution > 0
    requires e >= first + (|ts| + 1) * (resolution * USEC_PER_MSEC)
    ensures var width := resolution * USEC_PER_MSEC;
            var s := RunSweep(first, events, width);
            && TimeSeries(Some(first), events + [e], resolution) == Ok(ts + [s.count])
            && RunSweep(first, events + [e], width) == Sweep(ts + [s.count], s.winEnd, s.winEnd + width, 0)
  {
    var width := resolution * USEC_PER_MSEC;
    OpenWindow(first, events, resolution, ts);
    assert (|ts| + 1) * width == |ts| * width + width;
    assert (events + [e])[0] == events[0];
    FoldSnoc(Opening(first, width, events[0]), width, events, e);
  }

  // ---------------------------------------------------------------------
  // Plot extent (main block)

  /** Python 2 `a / b` on ints: division rounding toward minus infinity. */
  function FloorDiv(a: int, b: int): int
    requires b != 0
  {
    if b > 0 then a / b else (-a) / (-b)
  }

  /** Length of `xs[:m]` for a list of length `n`; a negative `m` counts from the end. */
  function SliceLen(n: nat, m: int): (k: nat)
    ensures k <= n
  {
    if m >= 0 then (if m < n then m else n)
    else if n + m > 0 then n + m else 0
  }

  /** `x_axis` after the clamp, and `len(ts[:x_axis/RES])`, the number of
      counts handed to the plot. */
  datatype Extent = Extent(xAxis: int, points: nat)

  /** The x-axis clamp of the main block, for a series of `n` counts. */
  function PlotExtent(n: nat, res: int, maxTs: int): (r: Result<Extent>)
    ensures r.Ok? <==> res != 0
    ensures r.Ok? ==> r.value.xAxis <= n * res && r.value.xAxis <= maxTs
    ensures r.Ok? ==> r.value.xAxis == n * res || r.value.xAxis == maxTs
    ensures r.Ok? ==> r.value.points <= n
    ensures r.Ok? && res > 0 && maxTs >= n * res ==> r.value.points == n
    ensures r.Ok? && res > 0 && 0 <= maxTs < n * res ==> r.value.points * res <= maxTs < (r.value.points + 1) * res
    ensures r.Ok? && res > 0 && maxTs < 0 ==>
              var drop := -FloorDiv(maxTs, res);
              && 1 <= drop && (drop - 1) * res < -maxTs <= drop * res
              && r.value.points == (if drop < n then n - drop else 0)
  {
    var x := if maxTs < n * res then maxTs else n * res;
    if res == 0 then Err(ZeroDivision)
    else
      PlotExtentFacts(n, res, maxTs);
      Ok(Extent(x, SliceLen(n, FloorDiv(x, res))))
  }

  lemma PlotExtentFacts(n: nat, res: int, maxTs: int)
    requires res != 0
    ensures res > 0 && maxTs >= n * res ==> FloorDiv(n * res, res) == n
    ensures res > 0 && 0 <= maxTs < n * res ==>
              var m := FloorDiv(maxTs, res); 0 <= m < n && m * res <= maxTs < (m + 1) * res
    ensures res > 0 && maxTs < 0 ==>
              var drop := -FloorDiv(maxTs, res); 1 <= drop && (drop - 1) * res < -maxTs <= drop * res
  {
    if res > 0 && maxTs >= n * res {
      DivOfMultiple(n, res);
    }
    if res > 0 && 0 <= maxTs < n * res {
      var m := maxTs / res;
      assert m * res <= maxTs < m * res + res;
      if m >= n {
        MulMonotone2(n, m, res);
      }
    }
    if res > 0 && maxTs < 0 {
      NegativeClamp(res, maxTs);
    }
  }

  /** A negative `max_ts` makes `max_ts/RES` negative: the slice drops the
      last `ceil(-max_ts/RES)` counts. */
  lemma NegativeClamp(res: int, maxTs: int)
    requires res > 0 && maxTs < 0
    ensures var drop := -(maxTs / res); 1 <= drop && (drop - 1) * res < -maxTs <= drop * res
  {
    var m := maxTs / res;
    assert m * res <= maxTs < m * res + res;
    var drop := -m;
    assert drop * res == -(m * res);
    assert (drop - 1) * res == drop * res - res;
  }

  lemma DivOfMultiple(n: nat, res: int)
    requires res > 0
    ensures (n * res) / res == n
  {
    var q := (n * res) / res;
    assert q * res <= n * res < q * res + res;
    if q < n {
      MulMonotone2(q + 1, n, res);
    } else if q > n {
      MulMonotone2(n + 1, q, res);
    }
  }

  /** Length of `np.arange(0, stop, step)` for a positive step. */
  function ArangeLen(stop: int, step: int): (k: nat)
    requires step > 0
    ensures stop > 0 ==> (k - 1) * step < stop <= k * step
    ensures stop <= 0 ==> k == 0
  {
    if stop <= 0 then 0
    else
      var k := (stop + step - 1) / step;
      assert k * step <= stop + step - 1 < k * step + step;
      k
  }

  /** As written, the x values (`np.arange(0, x_axis, RES)`) and the y values
      (`ts[:x_axis/RES]`) differ in number when `max_ts` clamps the axis to a
      value that is not a multiple of `RES`: 5 windows of 10 ms clamped at
      25 ms give 3 x values and 2 counts. */
  lemma PlotLengthsDisagree()
    ensures PlotExtent(5, 10, 25) == Ok(Extent(25, 2))
    ensures ArangeLen(25, 10) == 3
  {
  }

  /** In general, whenever `max_ts` clamps the axis (to a non-negative value)
      the two lengths differ exactly when `max_ts` is not a multiple of
      `RES`, and then by one: the x axis has one value more. */
  lemma PlotLengthsDiffer(n: nat, res: int, maxTs: int)
    requires res > 0 && 0 <= maxTs < n * res
    ensures PlotExtent(n, res, maxTs).Ok?
    ensures maxTs % res != 0 ==> ArangeLen(maxTs, res) == PlotExtent(n, res, maxTs).value.points + 1
    ensures maxTs % res == 0 ==> ArangeLen(maxTs, res) == PlotExtent(n, res, maxTs).value.points
  {
    var p := PlotExtent(n, res, maxTs).value.points;
    var rem := maxTs - p * res;
    assert (p + 1) * res == p * res + res;
    DivUnique(maxTs, res, p, rem);
    ArangeOfRemainder(res, p, rem);
  }

  /** `np.arange(0, q * RES + rem, RES)` has `q` values, one more when the
      remainder is not zero. */
  lemma ArangeOfRemainder(res: int, q: nat, rem: int)
    requires res > 0 && 0 <= rem < res
    ensures ArangeLen(q * res + rem, res) == if rem == 0 then q else q + 1
  {
    var a := q * res + rem;
    if a > 0 {
      assert q * res >= 0 by { MulMonotone2(0, q, res); }
      if rem == 0 {
        DivUnique(a + res - 1, res, q, res - 1);
      } else {
        assert a + res - 1 == (q + 1) * res + (rem - 1);
        DivUnique(a + res - 1, res, q + 1, rem - 1);
      }
    } else {
      assert q * res >= 0 by { MulMonotone2(0, q, res); }
      if q > 0 {
        MulMonotone2(1, q, res);
      }
    }
  }

  /** Euclidean division is unique: `a == q * b + r` with `0 <= r < b`
      fixes the quotient. */
  lemma DivUnique(a: int, b: int, q: int, r: int)
    requires b > 0 && 0 <= r < b && a == q * b + r
    ensures a / b == q && a % b == r
  {
    var d := a / b;
    assert d * b <= a < d * b + b;
    assert (d - q) * b == d * b - q * b;
    if d < q {
      MulMonotone2(1, q - d, b);
    } else if d > q {
      MulMonotone2(1, d - q, b);
    }
  }

  /** The clamp with the count slice cut to as many values as `np.arange`
      yields, so both axes always have the same length. */
  function AlignedPlotExtent(n: nat, res: int, maxTs: int): (r: Extent)
    requires res > 0
    ensures r.xAxis == (if maxTs < n * res then maxTs else n * res)
    ensures r.points == ArangeLen(r.xAxis, res)
    ensures r.points <= n
    ensures maxTs >= n * res ==> r.points == n
  {
    var x := if maxTs < n * res then maxTs else n * res;
    var k := ArangeLen(x, res);
    ArangeWithin(n, res, x);
    Extent(x, SliceLen(n, k))
  }

  /** `np.arange(0, x, res)` has at most `n` values when `x <= n * res`, and
      exactly `n` when `x == n * res`. */
  lemma ArangeWithin(n: nat, res: int, x: int)
    requires res > 0 && x <= n * res
    ensures ArangeLen(x, res) <= n
    ensures x == n * res ==> ArangeLen(x, res) == n
  {
    var k := ArangeLen(x, res);
    if x > 0 && k > n {
      MulMonotone2(n, k - 1, res);
    }
    if x == n * res && n > 0 && k < n {
      MulMonotone2(k, n - 1, res);
    }
  }
}
