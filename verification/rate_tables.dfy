/** The main block of `parse_kvm_event.py`: for every experiment run, the
    request rate of each ZooKeeper operation (from `latencies.txt`) and the
    APIC-write, APIC-read and PIO-write event rates of the trace recorded
    while that operation ran (from `<op>.txt`), collected into four tables
    with one row per run and one column per operation. */
module RateTables {
  import opened Outcomes
  import opened Decimal
  import opened TraceLine
  import opened KvmEvents
  import opened LatencyReport
  import opened Series

  /** The operations, in the order their columns are filled. */
  const OPERATIONS: seq<string> := ["created", "set", "get", "deleted"]

  /** The three event series read from every trace file. */
  const APIC_WRITE: string := "apic_write"
  const APIC_READ: string := "apic_read"
  const PIO_WRITE: string := "pio_write"

  function Trio(): seq<EventSeries> {
    [NewSeries(APIC_WRITE), NewSeries(APIC_READ), NewSeries(PIO_WRITE)]
  }

  /** The rates one operation of one run contributes: the request rate as the
      captured text, and the three event rates. */
  datatype OpRates = OpRates(request: string, apicWrite: real, apicRead: real, pioWrite: real)

  /** `args.input + str(exp_idx)`. */
  function ExperimentName(input: string, idx: int): string {
    input + IntToString(idx)
  }

  function LatencyFile(exp: string): string {
    exp + "/latencies.txt"
  }

  function TraceFile(exp: string, op: string): string {
    exp + "/" + op + ".txt"
  }

  /** The body of `for ops in operations`: look the operation up in the
      latency report (KeyError when it is missing), read its trace file
      through the three series at once, and take their rates in the order
      the script appends them. */
  function OperationRates(rep: Report, fs: FileSystem, exp: string, op: string): Result<OpRates> {
    var request :- GetInfo(rep, op);
    var lines :- ReadLines(fs, TraceFile(exp, op));
    ScanAllIndependent(Trio(), lines);
    var ss :- ScanAll(Trio(), lines);
    var w :- Rate(ss[0].events);
    var r :- Rate(ss[1].events);
    var p :- Rate(ss[2].events);
    Ok(OpRates(request, w, r, p))
  }

  /** The rates of one pattern over a trace file, computed from the file
      alone: its matching lines' stamps, then `get_rate`. */
  predicate Traced(pattern: string, lines: seq<string>) {
    WellFormed(pattern, lines) && Rate(Stamps(pattern, lines)).Ok?
  }

  /** An operation yields its rates exactly when the report has it, its
      trace file exists and each pattern both parses and has a defined rate
      over that file; the event rates are then those of each pattern's own
      stamps, as if each series had read the file alone. */
  lemma OperationRatesSpec(rep: Report, fs: FileSystem, exp: string, op: string)
    ensures OperationRates(rep, fs, exp, op).Ok? <==>
              && op in rep.rates && TraceFile(exp, op) in fs
              && Traced(APIC_WRITE, fs[TraceFile(exp, op)])
              && Traced(APIC_READ, fs[TraceFile(exp, op)])
              && Traced(PIO_WRITE, fs[TraceFile(exp, op)])
    ensures OperationRates(rep, fs, exp, op).Ok? ==>
              var lines := fs[TraceFile(exp, op)];
              OperationRates(rep, fs, exp, op).value ==
                OpRates(rep.rates[op],
                        Rate(Stamps(APIC_WRITE, lines)).value,
                        Rate(Stamps(APIC_READ, lines)).value,
                        Rate(Stamps(PIO_WRITE, lines)).value)
  {
    if op in rep.rates && TraceFile(exp, op) in fs {
      TrioScan(fs[TraceFile(exp, op)]);
    }
  }

  /** The interleaved pass over a trace file leaves each series with the
      stamps of its own matching lines. */
  lemma TrioScan(lines: seq<string>)
    ensures ScanAll(Trio(), lines).Ok? <==>
              WellFormed(APIC_WRITE, lines) && WellFormed(APIC_READ, lines) && WellFormed(PIO_WRITE, lines)
    ensures ScanAll(Trio(), lines).Ok? ==>
              && |ScanAll(Trio(), lines).value| == 3
              && ScanAll(Trio(), lines).value[0].events == Stamps(APIC_WRITE, lines)
              && ScanAll(Trio(), lines).value[1].events == Stamps(APIC_READ, lines)
              && ScanAll(Trio(), lines).value[2].events == Stamps(PIO_WRITE, lines)
  {
    var ss := Trio();
    ScanAllIndependent(ss, lines);
    CollectEvents(ss[0], lines);
    CollectEvents(ss[1], lines);
    CollectEvents(ss[2], lines);
  }

  /** The lookup comes first: a missing operation is a KeyError before its
      trace file is opened, and a missing trace file is an IOError. */
  lemma OperationRatesErrors(rep: Report, fs: FileSystem, exp: string, op: string)
    ensures op !in rep.rates ==> OperationRates(rep, fs, exp, op) == Err(KeyError(op))
    ensures op in rep.rates && TraceFile(exp, op) !in fs ==>
              OperationRates(rep, fs, exp, op) == Err(IOError(TraceFile(exp, op)))
  {
  }

  /** The inner loop over `operations`, stopping at the first exit. */
  function RatesFor(rep: Report, fs: FileSystem, exp: string, ops: seq<string>): (r: Result<seq<OpRates>>)
    ensures r.Ok? ==> |r.value| == |ops|
    decreases |ops|
  {
    if |ops| == 0 then Ok([])
    else
      var first :- OperationRates(rep, fs, exp, ops[0]);
      var rest :- RatesFor(rep, fs, exp, ops[1..]);
      Ok([first] + rest)
  }

  /** The operations are taken in order: the loop completes exactly when
      every operation does, and entry `j` is then operation `j`'s rates. */
  lemma {:induction false} RatesForSpec(rep: Report, fs: FileSystem, exp: string, ops: seq<string>)
    ensures RatesFor(rep, fs, exp, ops).Ok? <==>
              forall j :: 0 <= j < |ops| ==> OperationRates(rep, fs, exp, ops[j]).Ok?
    ensures RatesFor(rep, fs, exp, ops).Ok? ==>
              forall j :: 0 <= j < |ops| ==>
                RatesFor(rep, fs, exp, ops).value[j] == OperationRates(rep, fs, exp, ops[j]).value
    decreases |ops|
  {
    if |ops| > 0 {
      RatesForSpec(rep, fs, exp, ops[1..]);
      assert forall j :: 0 < j < |ops| ==> ops[1..][j - 1] == ops[j];
    }
  }

  /** When the loop stops early, it stops with the error of the first
      operation that fails. */
  lemma {:induction false} RatesForFirstError(rep: Report, fs: FileSystem, exp: string, ops: seq<string>)
    requires RatesFor(rep, fs, exp, ops).Err?
    ensures exists j :: && 0 <= j < |ops|
                        && OperationRates(rep, fs, exp, ops[j]) == Err(RatesFor(rep, fs, exp, ops).error)
                        && forall i :: 0 <= i < j ==> OperationRates(rep, fs, exp, ops[i]).Ok?
    decreases |ops|
  {
    if OperationRates(rep, fs, exp, ops[0]).Ok? {
      var tail := ops[1..];
      RatesForFirstError(rep, fs, exp, tail);
      var j :| && 0 <= j < |tail|
               && OperationRates(rep, fs, exp, tail[j]) == Err(RatesFor(rep, fs, exp, tail).error)
               && forall i :: 0 <= i < j ==> OperationRates(rep, fs, exp, tail[i]).Ok?;
      assert forall i :: 0 < i <= j ==> tail[i - 1] == ops[i];
      assert tail[j] == ops[j + 1];
    }
  }

  /** One pass of `for exp_idx in range(...)`: parse the run's latency file,
      then every operation in turn. */
  function ExperimentRates(c: Capture, fs: FileSystem, input: string, idx: int): (r: Result<seq<OpRates>>)
    ensures r.Ok? ==> |r.value| == |OPERATIONS|
  {
    var exp := ExperimentName(input, idx);
    var lines :- ReadLines(fs, LatencyFile(exp));
    RatesFor(ParseReport(c, lines), fs, exp, OPERATIONS)
  }

  /** A run yields its rates exactly when its latency file exists and every
      operation yields its rates against the report parsed from that file;
      entry `j` is then operation `j`'s rates. */
  lemma ExperimentRatesSpec(c: Capture, fs: FileSystem, input: string, idx: int)
    ensures LatencyFile(ExperimentName(input, idx)) !in fs ==>
              ExperimentRates(c, fs, input, idx) == Err(IOError(LatencyFile(ExperimentName(input, idx))))
    ensures ExperimentRates(c, fs, input, idx).Ok? <==>
              var exp := ExperimentName(input, idx);
              && LatencyFile(exp) in fs
              && forall j :: 0 <= j < |OPERATIONS| ==>
                   OperationRates(ParseReport(c, fs[LatencyFile(exp)]), fs, exp, OPERATIONS[j]).Ok?
    ensures ExperimentRates(c, fs, input, idx).Ok? ==>
              var exp := ExperimentName(input, idx);
              forall j :: 0 <= j < |OPERATIONS| ==>
                ExperimentRates(c, fs, input, idx).value[j] ==
                  OperationRates(ParseReport(c, fs[LatencyFile(exp)]), fs, exp, OPERATIONS[j]).value
  {
    var exp := ExperimentName(input, idx);
    if LatencyFile(exp) in fs {
      RatesForSpec(ParseReport(c, fs[LatencyFile(exp)]), fs, exp, OPERATIONS);
    }
  }

  /** The four `Series2D` tables of the main block. */
  datatype Tables = Tables(request: Series2D<string>, apicWrite: Series2D<real>,
                           apicRead: Series2D<real>, pioWrite: Series2D<real>)

  function Requests(rs: seq<OpRates>): seq<string> {
    seq(|rs|, j requires 0 <= j < |rs| => rs[j].request)
  }

  function ApicWrites(rs: seq<OpRates>): seq<real> {
    seq(|rs|, j requires 0 <= j < |rs| => rs[j].apicWrite)
  }

  function ApicReads(rs: seq<OpRates>): seq<real> {
    seq(|rs|, j requires 0 <= j < |rs| => rs[j].apicRead)
  }

  function PioWrites(rs: seq<OpRates>): seq<real> {
    seq(|rs|, j requires 0 <= j < |rs| => rs[j].pioWrite)
  }

  /** `n_exps` for the two bounds, and the number of rows `Series2D(n_exps)`
      actually has (none when the range is empty). */
  function Runs(minIdx: int, maxIdx: int): nat {
    if maxIdx >= minIdx then maxIdx - minIdx + 1 else 0
  }

  /** Every table has `Series2D(n)`'s shape. */
  predicate Shaped(t: Tables, n: int) {
    var rows := if n > 0 then n else 0;
    && t.request.ysize == n && |t.request.data| == rows
    && t.apicWrite.ysize == n && |t.apicWrite.data| == rows
    && t.apicRead.ysize == n && |t.apicRead.data| == rows
    && t.pioWrite.ysize == n && |t.pioWrite.data| == rows
  }

  /** Row `k` of every table holds the given column of `rs`. */
  predicate RowHolds(t: Tables, k: nat, rs: seq<OpRates>) {
    && k < |t.request.data| && t.request.data[k] == Requests(rs)
    && k < |t.apicWrite.data| && t.apicWrite.data[k] == ApicWrites(rs)
    && k < |t.apicRead.data| && t.apicRead.data[k] == ApicReads(rs)
    && k < |t.pioWrite.data| && t.pioWrite.data[k] == PioWrites(rs)
  }

  /** Row `k` of every table is still empty. */
  predicate RowEmpty(t: Tables, k: nat) {
    && k < |t.request.data| && t.request.data[k] == []
    && k < |t.apicWrite.data| && t.apicWrite.data[k] == []
    && k < |t.apicRead.data| && t.apicRead.data[k] == []
    && k < |t.pioWrite.data| && t.pioWrite.data[k] == []
  }

  /** Run `minIdx + k`, the one that fills row `k`. */
  function Experiment(c: Capture, fs: FileSystem, input: string, minIdx: int, k: nat): Result<seq<OpRates>> {
    ExperimentRates(c, fs, input, minIdx + k)
  }

  /** `done` holds the rates of the first `|done|` runs, in order. */
  predicate DoneSoFar(c: Capture, fs: FileSystem, input: string, minIdx: int, done: seq<seq<OpRates>>) {
    forall i: nat :: i < |done| ==> Experiment(c, fs, input, minIdx, i) == Ok(done[i])
  }

  lemma DoneExtend(c: Capture, fs: FileSystem, input: string, minIdx: int, done: seq<seq<OpRates>>, rs: seq<OpRates>)
    requires DoneSoFar(c, fs, input, minIdx, done)
    requires Experiment(c, fs, input, minIdx, |done|) == Ok(rs)
    ensures DoneSoFar(c, fs, input, minIdx, done + [rs])
  {
    forall i: nat | i < |done| + 1
      ensures Experiment(c, fs, input, minIdx, i) == Ok((done + [rs])[i])
    {
      if i < |done| {
        assert (done + [rs])[i] == done[i];
      }
    }
  }

  /** Row `k` exists in every table. */
  predicate HasRow(t: Tables, k: nat) {
    k < |t.request.data| && k < |t.apicWrite.data| && k < |t.apicRead.data| && k < |t.pioWrite.data|
  }

  /** The `append_to_row` calls the operations of one run make: each
      operation's rates go to the end of row `k` of the four tables. */
  function Fill(t: Tables, k: nat, rs: seq<OpRates>): Tables
    requires HasRow(t, k)
  {
    Tables(t.request.(data := t.request.data[k := t.request.data[k] + Requests(rs)]),
           t.apicWrite.(data := t.apicWrite.data[k := t.apicWrite.data[k] + ApicWrites(rs)]),
           t.apicRead.(data := t.apicRead.data[k := t.apicRead.data[k] + ApicReads(rs)]),
           t.pioWrite.(data := t.pioWrite.data[k := t.pioWrite.data[k] + PioWrites(rs)]))
  }

  /** The loop over `operations`, one `append_to_row` per table and
      operation, amounts to `Fill`. */
  method FillRow(t: Tables, k: nat, rs: seq<OpRates>) returns (t': Tables)
    requires HasRow(t, k)
    ensures HasRow(t', k) && t' == Fill(t, k, rs)
  {
    t' := t;
    var j := 0;
    assert Requests(rs[..0]) == [] && ApicWrites(rs[..0]) == [];
    assert ApicReads(rs[..0]) == [] && PioWrites(rs[..0]) == [];
    FillNothing(t, k);
    assert rs[..0] == [];
    while j < |rs|
      invariant j <= |rs|
      invariant t' == Fill(t, k, rs[..j])
    {
      var a := AppendToRow(t'.request, k, rs[j].request);
      var w := AppendToRow(t'.apicWrite, k, rs[j].apicWrite);
      var rd := AppendToRow(t'.apicRead, k, rs[j].apicRead);
      var p := AppendToRow(t'.pioWrite, k, rs[j].pioWrite);
      FillOneMore(t, k, rs, j);
      t' := Tables(a.value, w.value, rd.value, p.value);
      j := j + 1;
    }
    assert rs[..j] == rs;
  }

  lemma FillNothing(t: Tables, k: nat)
    requires HasRow(t, k)
    ensures Fill(t, k, []) == t
  {
    assert Requests([]) == [] && ApicWrites([]) == [] && ApicReads([]) == [] && PioWrites([]) == [];
    assert t.request.data[k] + [] == t.request.data[k];
    assert t.apicWrite.data[k] + [] == t.apicWrite.data[k];
    assert t.apicRead.data[k] + [] == t.apicRead.data[k];
    assert t.pioWrite.data[k] + [] == t.pioWrite.data[k];
  }

  /** One more operation's rates appended to each row. */
  lemma FillOneMore(t: Tables, k: nat, rs: seq<OpRates>, j: nat)
    requires HasRow(t, k) && j < |rs|
    ensures var u := Fill(t, k, rs[..j]);
            var v := Fill(t, k, rs[..j + 1]);
            && v.request.data == u.request.data[k := u.request.data[k] + [rs[j].request]]
            && v.apicWrite.data == u.apicWrite.data[k := u.apicWrite.data[k] + [rs[j].apicWrite]]
            && v.apicRead.data == u.apicRead.data[k := u.apicRead.data[k] + [rs[j].apicRead]]
            && v.pioWrite.data == u.pioWrite.data[k := u.pioWrite.data[k] + [rs[j].pioWrite]]
  {
    assert Requests(rs[..j + 1]) == Requests(rs[..j]) + [rs[j].request];
    assert ApicWrites(rs[..j + 1]) == ApicWrites(rs[..j]) + [rs[j].apicWrite];
    assert ApicReads(rs[..j + 1]) == ApicReads(rs[..j]) + [rs[j].apicRead];
    assert PioWrites(rs[..j + 1]) == PioWrites(rs[..j]) + [rs[j].pioWrite];
    ConcatAssoc(t.request.data[k], Requests(rs[..j]), [rs[j].request]);
    ConcatAssoc(t.apicWrite.data[k], ApicWrites(rs[..j]), [rs[j].apicWrite]);
    ConcatAssoc(t.apicRead.data[k], ApicReads(rs[..j]), [rs[j].apicRead]);
    ConcatAssoc(t.pioWrite.data[k], PioWrites(rs[..j]), [rs[j].pioWrite]);
  }

  /** The tables after the runs in `done` have filled their rows in order. */
  function Built(done: seq<seq<OpRates>>, n: int): (t: Tables)
    requires |done| <= Runs(0, n - 1)
    ensures Shaped(t, n)
    decreases |done|
  {
    if |done| == 0 then Tables(New(n), New(n), New(n), New(n))
    else Fill(Built(done[..|done| - 1], n), |done| - 1, done[|done| - 1])
  }

  /** Filling the next row of `Built(done, n)` gives `Built(done + [rs], n)`. */
  lemma BuiltStep(done: seq<seq<OpRates>>, rs: seq<OpRates>, n: int)
    requires |done| < Runs(0, n - 1)
    ensures HasRow(Built(done, n), |done|)
    ensures Fill(Built(done, n), |done|, rs) == Built(done + [rs], n)
  {
    assert (done + [rs])[..|done|] == done;
  }

  /** An empty row that is filled holds the run's columns. */
  lemma FillNewRow(t: Tables, k: nat, rs: seq<OpRates>)
    requires RowEmpty(t, k)
    ensures RowHolds(Fill(t, k, rs), k, rs)
  {
    assert [] + Requests(rs) == Requests(rs);
    assert [] + ApicWrites(rs) == ApicWrites(rs);
    assert [] + ApicReads(rs) == ApicReads(rs);
    assert [] + PioWrites(rs) == PioWrites(rs);
  }

  /** Filling row `k` leaves every other row as it was. */
  lemma FillKeepsRow(t: Tables, k: nat, rs: seq<OpRates>, i: nat, other: seq<OpRates>)
    requires HasRow(t, k) && i != k
    requires RowHolds(t, i, other)
    ensures RowHolds(Fill(t, k, rs), i, other)
  {
  }

  lemma FillKeepsEmpty(t: Tables, k: nat, rs: seq<OpRates>, i: nat)
    requires HasRow(t, k) && i != k
    requires RowEmpty(t, i)
    ensures RowEmpty(Fill(t, k, rs), i)
  {
  }

  /** Each row filled so far holds its run's columns, and the later rows are
      still empty. */
  lemma {:induction false} BuiltRows(done: seq<seq<OpRates>>, n: int)
    requires |done| <= Runs(0, n - 1)
    ensures forall i :: 0 <= i < |done| ==> RowHolds(Built(done, n), i, done[i])
    ensures forall i :: |done| <= i < Runs(0, n - 1) ==> RowEmpty(Built(done, n), i)
    decreases |done|
  {
    if |done| > 0 {
      var m := |done| - 1;
      var b := Built(done[..m], n);
      BuiltRows(done[..m], n);
      var t := Built(done, n);
      assert t == Fill(b, m, done[m]);
      FillNewRow(b, m, done[m]);
      forall i | 0 <= i < m
        ensures RowHolds(t, i, done[i])
      {
        assert done[..m][i] == done[i];
        FillKeepsRow(b, m, done[m], i, done[i]);
      }
      forall i | m < i < Runs(0, n - 1)
        ensures RowEmpty(t, i)
      {
        FillKeepsEmpty(b, m, done[m], i);
      }
    } else {
      var r: Series2D<string> := New(n);
      var e: Series2D<real> := New(n);
      assert Built(done, n) == Tables(r, e, e, e);
      assert forall i :: 0 <= i < Runs(0, n - 1) ==> r.data[i] == [] && e.data[i] == [];
    }
  }

  /** Every run in the range yields its rates. */
  predicate AllRunsOk(c: Capture, fs: FileSystem, input: string, minIdx: int, maxIdx: int) {
    forall k: nat :: k < Runs(minIdx, maxIdx) ==> Experiment(c, fs, input, minIdx, k).Ok?
  }

  /** `err` is the error of the first run in the range that fails. */
  predicate FirstFailure(c: Capture, fs: FileSystem, input: string, minIdx: int, maxIdx: int, err: Error) {
    exists k: nat :: && k < Runs(minIdx, maxIdx)
                     && Experiment(c, fs, input, minIdx, k) == Err(err)
                     && forall i: nat :: i < k ==> Experiment(c, fs, input, minIdx, i).Ok?
  }

  /** The tables have `Series2D(maxIdx - minIdx + 1)`'s shape and row `k` of
      each holds run `minIdx + k`'s rates, one entry per operation. */
  predicate Filled(t: Tables, c: Capture, fs: FileSystem, input: string, minIdx: int, maxIdx: int) {
    && Shaped(t, maxIdx - minIdx + 1)
    && forall k: nat :: k < Runs(minIdx, maxIdx) ==>
         && Experiment(c, fs, input, minIdx, k).Ok?
         && RowHolds(t, k, Experiment(c, fs, input, minIdx, k).value)
         && |t.request.data[k]| == |OPERATIONS| && |t.apicWrite.data[k]| == |OPERATIONS|
         && |t.apicRead.data[k]| == |OPERATIONS| && |t.pioWrite.data[k]| == |OPERATIONS|
  }

  /** Once every run has filled its row, the tables are complete. */
  lemma BuiltFinal(c: Capture, fs: FileSystem, input: string, minIdx: int, maxIdx: int, done: seq<seq<OpRates>>, t: Tables)
    requires |done| == Runs(minIdx, maxIdx) == Runs(0, maxIdx - minIdx)
    requires DoneSoFar(c, fs, input, minIdx, done)
    requires t == Built(done, maxIdx - minIdx + 1)
    ensures AllRunsOk(c, fs, input, minIdx, maxIdx)
    ensures Filled(t, c, fs, input, minIdx, maxIdx)
  {
    BuiltRows(done, maxIdx - minIdx + 1);
  }

  /** A run that fails after all earlier ones succeeded is the first
      failure, and the range does not complete. */
  lemma FailsAt(c: Capture, fs: FileSystem, input: string, minIdx: int, maxIdx: int, k: nat)
    requires k < Runs(minIdx, maxIdx) && Experiment(c, fs, input, minIdx, k).Err?
    requires forall i: nat :: i < k ==> Experiment(c, fs, input, minIdx, i).Ok?
    ensures !AllRunsOk(c, fs, input, minIdx, maxIdx)
    ensures FirstFailure(c, fs, input, minIdx, maxIdx, Experiment(c, fs, input, minIdx, k).error)
  {
  }

  /** The end of the main block's loop: the error of the run that stopped
      it, or the tables once every run has filled its row. */
  method Conclude(c: Capture, fs: FileSystem, input: string, minIdx: int, maxIdx: int, k: nat, ghost done: seq<seq<OpRates>>, t: Tables)
    returns (r: Result<Tables>)
    requires k == |done| <= Runs(minIdx, maxIdx) == Runs(0, maxIdx - minIdx)
    requires DoneSoFar(c, fs, input, minIdx, done)
    requires k < Runs(minIdx, maxIdx) ==> Experiment(c, fs, input, minIdx, k).Err?
    requires t == Built(done, maxIdx - minIdx + 1)
    ensures r.Ok? <==> AllRunsOk(c, fs, input, minIdx, maxIdx)
    ensures r.Err? ==> FirstFailure(c, fs, input, minIdx, maxIdx, r.error)
    ensures r.Ok? ==> Filled(r.value, c, fs, input, minIdx, maxIdx)
  {
    if k < Runs(minIdx, maxIdx) {
      FailsAt(c, fs, input, minIdx, maxIdx, k);
      r := Err(Experiment(c, fs, input, minIdx, k).error);
    } else {
      BuiltFinal(c, fs, input, minIdx, maxIdx, done, t);
      r := Ok(t);
    }
  }

  /** The main block's loops, from the four empty tables to the filled ones.
      Runs are taken in index order and each run's operations in the order
      of `OPERATIONS`; the script ends with the first run's error, or fills
      row `k` of every table with run `minIdx + k`'s rates, one entry per
      operation. */
  method FillTables(c: Capture, fs: FileSystem, input: string, minIdx: int, maxIdx: int) returns (r: Result<Tables>)
    ensures r.Ok? <==> AllRunsOk(c, fs, input, minIdx, maxIdx)
    ensures r.Err? ==> FirstFailure(c, fs, input, minIdx, maxIdx, r.error)
    ensures r.Ok? ==> Filled(r.value, c, fs, input, minIdx, maxIdx)
  {
    var n := maxIdx - minIdx + 1;
    var t := Tables(New(n), New(n), New(n), New(n));
    var runs := Runs(minIdx, maxIdx);
    ghost var done: seq<seq<OpRates>> := [];
    var k: nat := 0;
    while k < runs && Experiment(c, fs, input, minIdx, k).Ok?
      invariant k == |done| <= runs == Runs(0, n - 1)
      invariant t == Built(done, n)
      invariant DoneSoFar(c, fs, input, minIdx, done)
    {
      var rs := Experiment(c, fs, input, minIdx, k).value;
      BuiltStep(done, rs, n);
      DoneExtend(c, fs, input, minIdx, done, rs);
      t := FillRow(t, k, rs);
      done := done + [rs];
      k := k + 1;
    }
    r := Conclude(c, fs, input, minIdx, maxIdx, k, done, t);
  }
}
