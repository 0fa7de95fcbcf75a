/** The `EventSeries` of `parse_kvm_event.py`: an append-only list of event
    stamps for one pattern, and the interleaved pass in the main block that
    feeds every line of a trace file to three series in turn. */
module KvmEvents {
  import opened Outcomes
  import opened Text
  import opened TraceLine

  datatype EventSeries = EventSeries(pattern: string, events: seq<int>)

  function NewSeries(pattern: string): EventSeries {
    EventSeries(pattern, [])
  }

  /** `EventSeries.try_add`: a line containing the pattern appends its stamp
      after the earlier ones; any other line leaves the series as it is. */
  function TryAdd(s: EventSeries, line: string): (r: Result<EventSeries>)
    ensures r.Ok? <==> !Contains(line, s.pattern) || ParseTime(line).Some?
    ensures r.Err? ==> r.error == WrongFormat
    ensures r.Ok? ==> r.value.pattern == s.pattern
    ensures r.Ok? ==> |r.value.events| == |s.events| + (if Contains(line, s.pattern) then 1 else 0)
    ensures r.Ok? ==> r.value.events[..|s.events|] == s.events
    ensures r.Ok? && Contains(line, s.pattern) ==>
              r.value.events[|s.events|] == Micros(ParseTime(line).value)
  {
    var stamp :- MatchStamp(s.pattern, line);
    Ok(s.(events := s.events + (if stamp.Some? then [stamp.value] else [])))
  }

  lemma TryAddStamp(s: EventSeries, line: string)
    ensures TryAdd(s, line).Ok? <==> MatchStamp(s.pattern, line).Ok?
    ensures TryAdd(s, line).Ok? ==>
              TryAdd(s, line).value == EventSeries(s.pattern, s.events + StampOf(s.pattern, line))
  {
  }

  /** `try_add` over the lines of one trace file, stopping at the first exit. */
  function Collect(s: EventSeries, lines: seq<string>): Result<EventSeries>
    decreases |lines|
  {
    if |lines| == 0 then Ok(s)
    else
      var next :- TryAdd(s, lines[0]);
      Collect(next, lines[1..])
  }

  /** Collecting succeeds exactly when no line containing the pattern lacks a
      timestamp, and then appends the stamps of the matching lines in order. */
  lemma CollectEvents(s: EventSeries, lines: seq<string>)
    ensures Collect(s, lines).Ok? <==> WellFormed(s.pattern, lines)
    ensures Collect(s, lines).Ok? ==>
              Collect(s, lines).value == EventSeries(s.pattern, s.events + Stamps(s.pattern, lines))
  {
    CollectSucceeds(s, lines);
    if Collect(s, lines).Ok? {
      CollectAppends(s, lines, Collect(s, lines).value);
    }
  }

  lemma CollectStep(s: EventSeries, lines: seq<string>) returns (next: EventSeries)
    requires |lines| > 0 && MatchStamp(s.pattern, lines[0]).Ok?
    ensures Collect(s, lines) == Collect(next, lines[1..])
    ensures next.pattern == s.pattern
    ensures next.events == s.events + StampOf(s.pattern, lines[0])
  {
    TryAddStamp(s, lines[0]);
    next := TryAdd(s, lines[0]).value;
  }

  lemma {:induction false} CollectSucceeds(s: EventSeries, lines: seq<string>)
    ensures Collect(s, lines).Ok? <==> WellFormed(s.pattern, lines)
    decreases |lines|
  {
    if |lines| > 0 {
      TryAddStamp(s, lines[0]);
      if MatchStamp(s.pattern, lines[0]).Ok? {
        var next := CollectStep(s, lines);
        CollectSucceeds(next, lines[1..]);
      }
    }
  }

  lemma {:induction false} CollectAppends(s: EventSeries, lines: seq<string>, r: EventSeries)
    requires WellFormed(s.pattern, lines)
    requires Collect(s, lines) == Ok(r)
    ensures r.pattern == s.pattern
    ensures r.events == s.events + Stamps(s.pattern, lines)
    decreases |lines|
  {
    if |lines| > 0 {
      StampsCons(s.pattern, lines);
      var next := CollectStep(s, lines);
      CollectAppends(next, lines[1..], r);
      ConcatAssoc(s.events, StampOf(s.pattern, lines[0]), Stamps(s.pattern, lines[1..]));
    }
  }

  lemma ConcatAssoc<T>(a: seq<T>, b: seq<T>, c: seq<T>)
    ensures a + b + c == a + (b + c)
  {
  }

  /** One line handed to every series in turn, as the `for line in fp` body
      of the main block does; the first series that rejects it ends the run. */
  function AddToEach(ss: seq<EventSeries>, line: string): Result<seq<EventSeries>>
    decreases |ss|
  {
    if |ss| == 0 then Ok([])
    else
      var first :- TryAdd(ss[0], line);
      var rest :- AddToEach(ss[1..], line);
      Ok([first] + rest)
  }

  /** A whole trace file handed line by line to every series. */
  function ScanAll(ss: seq<EventSeries>, lines: seq<string>): Result<seq<EventSeries>>
    decreases |lines|
  {
    if |lines| == 0 then Ok(ss)
    else
      var next :- AddToEach(ss, lines[0]);
      ScanAll(next, lines[1..])
  }

  lemma {:induction false} AddToEachSpec(ss: seq<EventSeries>, line: string)
    ensures AddToEach(ss, line).Ok? <==> forall i :: 0 <= i < |ss| ==> TryAdd(ss[i], line).Ok?
    ensures AddToEach(ss, line).Ok? ==>
              && |AddToEach(ss, line).value| == |ss|
              && forall i :: 0 <= i < |ss| ==> AddToEach(ss, line).value[i] == TryAdd(ss[i], line).value
    decreases |ss|
  {
    if |ss| > 0 {
      AddToEachSpec(ss[1..], line);
      assert forall i :: 0 < i < |ss| ==> ss[1..][i - 1] == ss[i];
    }
  }

  /** Interleaving the series changes nothing: the pass succeeds exactly
      when every series alone accepts the file, and then each series ends as
      it would have if it had read the file by itself. */
  lemma {:induction false} ScanAllIndependent(ss: seq<EventSeries>, lines: seq<string>)
    ensures ScanAll(ss, lines).Ok? <==> forall i :: 0 <= i < |ss| ==> Collect(ss[i], lines).Ok?
    ensures ScanAll(ss, lines).Ok? ==>
              && |ScanAll(ss, lines).value| == |ss|
              && forall i :: 0 <= i < |ss| ==> ScanAll(ss, lines).value[i] == Collect(ss[i], lines).value
    decreases |lines|
  {
    if |lines| > 0 {
      AddToEachSpec(ss, lines[0]);
      var step := AddToEach(ss, lines[0]);
      if step.Ok? {
        ScanAllIndependent(step.value, lines[1..]);
        assert forall i :: 0 <= i < |ss| ==> Collect(ss[i], lines) == Collect(step.value[i], lines[1..]);
      } else {
        var i :| 0 <= i < |ss| && TryAdd(ss[i], lines[0]).Err?;
        assert Collect(ss[i], lines).Err?;
      }
    }
  }
}
