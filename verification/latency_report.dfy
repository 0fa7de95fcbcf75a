/** `ParseZKLatency` of `parse_kvm_event.py`: the operation-to-rate map read
    from the output of `zk-latencies.py`, whose timing lines look like
    `created    10000 permanent znodes  in   1234 ms (0.123400 ms/op 8103.727715/sec)`.

    The line pattern `(\S+)\s+(\d+)\s+permanent.+(\d+\.\d+)/sec\)` is
    modelled as a scanner that follows the backtracking matcher: `re.search`
    tries start positions from the left; from a start the head
    `(\S+)\s+(\d+)\s+permanent` can match in one way only; the greedy `.+`
    then gives back characters one at a time, so the rate group starts at
    the LAST position from which `\d+\.\d+/sec\)` matches. */
module LatencyReport {
  import opened Outcomes
  import opened Text
  import opened Decimal

  /** The three groups of a matching line: operation, znode count, rate. */
  datatype LatencyLine = LatencyLine(op: string, count: string, rate: string)

  const PERMANENT: string := "permanent"
  const PER_SEC: string := "/sec)"

  /** Where `(\S+)\s+(\d+)\s+permanent` lies when it matches from `p`: the
      operation is `line[p..opEnd]`, the count `line[countStart..countEnd]`
      and `permanent` starts at `permAt`. */
  datatype Head = Head(opEnd: nat, countStart: nat, countEnd: nat, permAt: nat)

  predicate IsHead(line: string, p: nat, h: Head) {
    && p < h.opEnd < h.countStart < h.countEnd < h.permAt
    && OccursAt(line, PERMANENT, h.permAt)
    && (forall k :: p <= k < h.opEnd ==> NotSpace(line[k]))
    && (forall k :: h.opEnd <= k < h.countStart ==> IsSpace(line[k]))
    && (forall k :: h.countStart <= k < h.countEnd ==> IsDigit(line[k]))
    && (forall k :: h.countEnd <= k < h.permAt ==> IsSpace(line[k]))
  }

  /** The head matched from `p`: each class run taken greedily. */
  function HeadAt(line: string, p: nat): Option<Head>
    requires p <= |line|
  {
    var opEnd := RunEnd(line, p, NonSpaces);
    var countStart := RunEnd(line, opEnd, Spaces);
    var countEnd := RunEnd(line, countStart, Digits);
    var permAt := RunEnd(line, countEnd, Spaces);
    if p < opEnd < countStart < countEnd < permAt && OccursAt(line, PERMANENT, permAt) then
      Some(Head(opEnd, countStart, countEnd, permAt))
    else None
  }

  /** The greedy head is the only way the head can match from `p`, because
      each class run is followed by a character outside the class. */
  lemma HeadAtSpec(line: string, p: nat)
    requires p <= |line|
    ensures forall h :: IsHead(line, p, h) <==> HeadAt(line, p) == Some(h)
  {
    if HeadAt(line, p).Some? {
      HeadAtSound(line, p);
    }
    forall g | IsHead(line, p, g) ensures HeadAt(line, p) == Some(g) {
      HeadAtIsHead(line, p, g);
    }
  }

  /** What `HeadAt` finds is a head. */
  lemma HeadAtSound(line: string, p: nat)
    requires p <= |line| && HeadAt(line, p).Some?
    ensures IsHead(line, p, HeadAt(line, p).value)
  {
    var opEnd := RunEnd(line, p, NonSpaces);
    var countStart := RunEnd(line, opEnd, Spaces);
    var countEnd := RunEnd(line, countStart, Digits);
    RunEndSpec(line, p, NonSpaces);
    RunEndSpec(line, opEnd, Spaces);
    RunEndSpec(line, countStart, Digits);
    RunEndSpec(line, countEnd, Spaces);
  }

  lemma HeadFields(line: string, p: nat, h: Head)
    requires p <= |line| && IsHead(line, p, h)
    ensures h.opEnd == RunEnd(line, p, NonSpaces)
    ensures h.countStart == RunEnd(line, h.opEnd, Spaces)
    ensures h.countEnd == RunEnd(line, h.countStart, Digits)
    ensures h.permAt == RunEnd(line, h.countEnd, Spaces)
  {
    assert line[h.permAt] == PERMANENT[0];
    RunEndUnique(line, p, NonSpaces, h.opEnd);
    RunEndUnique(line, h.opEnd, Spaces, h.countStart);
    RunEndUnique(line, h.countStart, Digits, h.countEnd);
    RunEndUnique(line, h.countEnd, Spaces, h.permAt);
  }

  /** `(\d+\.\d+)/sec\)` matches from `d`. Each `\d+` takes the whole digit
      run (giving a digit back cannot produce the `.` or `/` that must
      follow), so the match from `d` is unique when it exists. */
  predicate RateFrom(line: string, d: nat) {
    && d < |line|
    && var e := RunEnd(line, d, Digits);
    && d < e < |line| && line[e] == '.'
    && var f := RunEnd(line, e + 1, Digits);
    && e + 1 < f && OccursAt(line, PER_SEC, f)
  }

  /** End of the rate group that starts at `d`. */
  function RateEnd(line: string, d: nat): (f: nat)
    requires d <= |line|
    ensures d <= f <= |line|
    ensures RateFrom(line, d) ==> d + 2 < f
  {
    var e := RunEnd(line, d, Digits);
    if e < |line| then RunEnd(line, e + 1, Digits) else e
  }

  /** The greedy `.+`: the largest `d` in `lo..hi` from which the rate group
      and `/sec)` match. */
  function LastRateFrom(line: string, lo: nat, hi: int): (r: Option<nat>)
    decreases hi - lo
  {
    if hi < lo then None
    else if RateFrom(line, hi) then Some(hi)
    else LastRateFrom(line, lo, hi - 1)
  }

  lemma LastRateFromSpec(line: string, lo: nat, hi: int)
    ensures var r := LastRateFrom(line, lo, hi);
            && (r.Some? ==> lo <= r.value <= hi && RateFrom(line, r.value))
            && (r.Some? ==> forall d: nat :: r.value < d <= hi ==> !RateFrom(line, d))
            && (r.None? <==> forall d: nat :: lo <= d <= hi ==> !RateFrom(line, d))
  {
    if LastRateFrom(line, lo, hi).Some? {
      LastRateFromFound(line, lo, hi);
    } else {
      LastRateFromNone(line, lo, hi);
    }
  }

  /** A found rate start lies in range, and no later one does. */
  lemma {:induction false} LastRateFromFound(line: string, lo: nat, hi: int)
    requires LastRateFrom(line, lo, hi).Some?
    ensures var d := LastRateFrom(line, lo, hi).value;
            && lo <= d <= hi && RateFrom(line, d)
            && forall d': nat :: d < d' <= hi ==> !RateFrom(line, d')
    decreases hi - lo
  {
    if !RateFrom(line, hi) {
      LastRateFromFound(line, lo, hi - 1);
    }
  }

  /** When nothing is found there is no rate start in range at all. */
  lemma {:induction false} LastRateFromNone(line: string, lo: nat, hi: int)
    requires LastRateFrom(line, lo, hi).None?
    ensures forall d: nat :: lo <= d <= hi ==> !RateFrom(line, d)
    decreases hi - lo
  {
    if hi >= lo {
      LastRateFromNone(line, lo, hi - 1);
    }
  }


  /** The rate group the greedy `.+` leaves always has exactly one digit
      before the `.`: when the digit run from `d` is longer, the rate group
      also matches from `d + 1`. */
  lemma {:induction false} GreedyRateOneDigit(line: string, d: nat)
    requires RateFrom(line, d) && d + 1 < |line| && !RateFrom(line, d + 1)
    ensures RunEnd(line, d, Digits) == d + 1
  {
  }

  /** A capture of the shape `<digit>.<digits>`. */
  predicate OneDigitRate(rate: string) {
    |rate| >= 3 && IsDigit(rate[0]) && rate[1] == '.' && AllDigits(rate[2..])
  }

  /** What every match yields: a non-empty operation without whitespace, a
      non-empty count of digits, and `permanent` on the line. */
  predicate Shaped(line: string, l: LatencyLine) {
    && |l.op| >= 1 && (forall k :: 0 <= k < |l.op| ==> NotSpace(l.op[k]))
    && |l.count| >= 1 && AllDigits(l.count)
    && Contains(line, PERMANENT)
  }

  lemma HeadGroups(line: string, p: nat, h: Head, rate: string)
    requires p <= |line| && IsHead(line, p, h)
    ensures Shaped(line, LatencyLine(line[p..h.opEnd], line[h.countStart..h.countEnd], rate))
  {
    assert OccursAt(line, PERMANENT, h.permAt);
  }

  /** The positions of a match from `p`: the head, and where the greedy `.+`
      lets the rate group start. */
  datatype Match = Match(head: Head, rateAt: nat)

  function MatchFrom(line: string, p: nat): Option<Match>
    requires p <= |line|
  {
    match HeadAt(line, p)
    case None => None
    case Some(h) =>
      match LastRateFrom(line, h.permAt + |PERMANENT| + 1, |line| - 1)
      case None => None
      case Some(d) => Some(Match(h, d))
  }

  /** A match is a head followed, past at least one more character, by the
      last position the rate group matches from. */
  lemma MatchFromFacts(line: string, p: nat)
    requires p <= |line| && MatchFrom(line, p).Some?
    ensures IsHead(line, p, MatchFrom(line, p).value.head)
    ensures RateFrom(line, MatchFrom(line, p).value.rateAt)
    ensures MatchFrom(line, p).value.head.permAt + |PERMANENT| < MatchFrom(line, p).value.rateAt
    ensures forall d: nat :: MatchFrom(line, p).value.rateAt < d <= |line| - 1 ==> !RateFrom(line, d)
  {
    MatchHeadFacts(line, p);
    MatchRateFacts(line, p);
  }

  lemma MatchHeadFacts(line: string, p: nat)
    requires p <= |line| && MatchFrom(line, p).Some?
    ensures IsHead(line, p, MatchFrom(line, p).value.head)
  {
    HeadAtSound(line, p);
  }

  lemma MatchRateFacts(line: string, p: nat)
    requires p <= |line| && MatchFrom(line, p).Some?
    ensures RateFrom(line, MatchFrom(line, p).value.rateAt)
    ensures MatchFrom(line, p).value.head.permAt + |PERMANENT| < MatchFrom(line, p).value.rateAt
    ensures forall d: nat :: MatchFrom(line, p).value.rateAt < d <= |line| - 1 ==> !RateFrom(line, d)
  {
    var h := HeadAt(line, p).value;
    var lo := h.permAt + |PERMANENT| + 1;
    LastRateFromFound(line, lo, |line| - 1);
    assert MatchFrom(line, p) == Some(Match(h, LastRateFrom(line, lo, |line| - 1).value));
  }


  predicate MatchesAt(line: string, q: nat) {
    q <= |line| && MatchFrom(line, q).Some?
  }

  /** The groups exactly as the pattern captures them. The rate group keeps
      only the last digit before the `.`. */
  function MatchAtAsWritten(line: string, p: nat): (r: Option<LatencyLine>)
    requires p <= |line|
    ensures r.Some? <==> MatchesAt(line, p)
  {
    match MatchFrom(line, p)
    case None => None
    case Some(m) =>
      MatchFromFacts(line, p);
      var h := m.head;
      Some(LatencyLine(line[p..h.opEnd], line[h.countStart..h.countEnd], line[m.rateAt..RateEnd(line, m.rateAt)]))
  }

  /** What the literal pattern captures has the match's shape, and its rate
      group has a single integer digit. */
  lemma MatchAtAsWrittenShape(line: string, p: nat)
    requires p <= |line| && MatchesAt(line, p)
    ensures Shaped(line, MatchAtAsWritten(line, p).value) && OneDigitRate(MatchAtAsWritten(line, p).value.rate)
  {
    MatchFromFacts(line, p);
    var m := MatchFrom(line, p).value;
    MatchAtAsWrittenOf(line, p, m.head, m.rateAt);
    GreedyRate(line, m.rateAt);
    HeadGroups(line, p, m.head, line[m.rateAt..RateEnd(line, m.rateAt)]);
  }


  lemma GreedyRate(line: string, d: nat)
    requires RateFrom(line, d)
    requires forall d': nat :: d < d' <= |line| - 1 ==> !RateFrom(line, d')
    ensures OneDigitRate(line[d..RateEnd(line, d)])
  {
    GreedyRateOneDigit(line, d);
    RunEndSpec(line, RunEnd(line, d, Digits) + 1, Digits);
    var f := RateEnd(line, d);
    assert line[d..f][2..] == line[d + 2..f];
  }

  /** Start of the run of digits that ends just before `e`, going no lower
      than `lo`. */
  function DigitRunStart(line: string, lo: nat, e: nat): (b: nat)
    requires lo <= e <= |line|
    ensures lo <= b <= e
    decreases e - lo
  {
    if lo < e && IsDigit(line[e - 1]) then DigitRunStart(line, lo, e - 1) else e
  }

  /** The run is maximal to the left: all digits, and no digit just before
      it unless the bound stops it. */
  lemma {:induction false} DigitRunStartSpec(line: string, lo: nat, e: nat)
    requires lo <= e <= |line|
    ensures forall k :: DigitRunStart(line, lo, e) <= k < e ==> IsDigit(line[k])
    ensures DigitRunStart(line, lo, e) == lo || !IsDigit(line[DigitRunStart(line, lo, e) - 1])
    decreases e - lo
  {
    if lo < e && IsDigit(line[e - 1]) {
      DigitRunStartSpec(line, lo, e - 1);
    }
  }

  /** A whole decimal number `<digits>.<digits>`. */
  predicate DecimalRate(rate: string) {
    exists k :: 1 <= k < |rate| - 1 && AllDigits(rate[..k]) && rate[k] == '.' && AllDigits(rate[k + 1..])
  }

  /** The groups as the pattern is evidently meant to capture them: the rate
      group takes the whole number in front of `/sec)`, i.e. the digit run
      that ends at the greedy match's single digit, extended to the left
      over every digit after the first character following `permanent`. */
  function MatchAt(line: string, p: nat): (r: Option<LatencyLine>)
    requires p <= |line|
    ensures r.Some? <==> MatchesAt(line, p)
  {
    match MatchFrom(line, p)
    case None => None
    case Some(m) =>
      MatchFromFacts(line, p);
      var h := m.head;
      var b := WholeRateStart(line, h.permAt + |PERMANENT| + 1, m.rateAt);
      Some(LatencyLine(line[p..h.opEnd], line[h.countStart..h.countEnd], line[b..RateEnd(line, m.rateAt)]))
  }

  /** Every corrected match has the expected groups, with a whole decimal
      number as its rate. */
  lemma MatchAtShape(line: string, p: nat)
    requires p <= |line| && MatchesAt(line, p)
    ensures Shaped(line, MatchAt(line, p).value) && DecimalRate(MatchAt(line, p).value.rate)
  {
    MatchAtShaped(line, p);
    MatchAtDecimal(line, p);
  }

  lemma MatchAtShaped(line: string, p: nat)
    requires p <= |line| && MatchesAt(line, p)
    ensures Shaped(line, MatchAt(line, p).value)
  {
    MatchHeadFacts(line, p);
    var m := MatchFrom(line, p).value;
    MatchAtHeadGroups(line, p, m.head, m.rateAt);
    HeadGroups(line, p, m.head, MatchAt(line, p).value.rate);
  }

  lemma MatchAtDecimal(line: string, p: nat)
    requires p <= |line| && MatchesAt(line, p)
    ensures DecimalRate(MatchAt(line, p).value.rate)
  {
    MatchRateFacts(line, p);
    var m := MatchFrom(line, p).value;
    var lo := m.head.permAt + |PERMANENT| + 1;
    WholeRateFacts(line, lo, m.rateAt);
    DecimalOf(line, p, m.head, m.rateAt, WholeRateStart(line, lo, m.rateAt), RateEnd(line, m.rateAt));
  }

  lemma DecimalOf(line: string, p: nat, h: Head, d: nat, b: nat, f: nat)
    requires p <= |line| && MatchFrom(line, p) == Some(Match(h, d))
    requires h.permAt + |PERMANENT| + 1 <= d < |line|
    requires WholeRateStart(line, h.permAt + |PERMANENT| + 1, d) == b && RateEnd(line, d) == f
    requires b <= f && DecimalRate(line[b..f])
    ensures DecimalRate(MatchAt(line, p).value.rate)
  {
    MatchAtOf(line, p, h, d);
  }

  /** The operation and count groups of a known match. */
  lemma MatchAtHeadGroups(line: string, p: nat, h: Head, d: nat)
    requires p <= |line| && MatchFrom(line, p) == Some(Match(h, d))
    requires p <= h.opEnd && h.countStart <= h.countEnd <= |line|
    ensures MatchAt(line, p).Some?
    ensures MatchAt(line, p).value.op == line[p..h.opEnd]
    ensures MatchAt(line, p).value.count == line[h.countStart..h.countEnd]
  {
  }


  /** Where the whole number that ends at the digit at `d` starts. */
  function WholeRateStart(line: string, lo: nat, d: nat): (b: nat)
    requires lo <= d < |line|
    ensures lo <= b <= d + 1
  {
    DigitRunStart(line, lo, d + 1)
  }

  /** At the greedy capture the whole number is a decimal `<digits>.<digits>`
      whose tail from the last integer digit is the literal capture. */
  lemma WholeRateFacts(line: string, lo: nat, d: nat)
    requires lo <= d && RateFrom(line, d)
    requires forall d': nat :: d < d' <= |line| - 1 ==> !RateFrom(line, d')
    ensures WholeRateStart(line, lo, d) <= d
    ensures DecimalRate(line[WholeRateStart(line, lo, d)..RateEnd(line, d)])
    ensures line[d..RateEnd(line, d)] == line[WholeRateStart(line, lo, d)..RateEnd(line, d)][d - WholeRateStart(line, lo, d)..]
  {
    GreedyRate(line, d);
    DigitRunStartSpec(line, lo, d + 1);
    var b := WholeRateStart(line, lo, d);
    var f := RateEnd(line, d);
    var rate := line[b..f];
    var k := d + 1 - b;
    assert rate[..k] == line[b..d + 1];
    assert rate[k + 1..] == line[d + 2..f];
    assert line[d..f][2..] == line[d + 2..f];
    assert 1 <= k < |rate| - 1 && AllDigits(rate[..k]) && rate[k] == '.' && AllDigits(rate[k + 1..]);
  }

  /** Index of the first `true` at or after `p`. */
  function FirstTrue(bs: seq<bool>, p: nat): (r: Option<nat>)
    requires p <= |bs|
    ensures r.None? <==> forall q :: p <= q < |bs| ==> !bs[q]
    ensures r.Some? ==> p <= r.value < |bs| && bs[r.value]
    ensures r.Some? ==> forall q :: p <= q < r.value ==> !bs[q]
    decreases |bs| - p
  {
    if p == |bs| then None
    else if bs[p] then Some(p)
    else FirstTrue(bs, p + 1)
  }

  /** `re.search`: the leftmost start position from which the pattern
      matches. */
  function FirstMatch(line: string): (r: Option<nat>)
    ensures r.None? <==> forall q: nat :: !MatchesAt(line, q)
    ensures r.Some? ==> r.value <= |line| && MatchesAt(line, r.value)
    ensures r.Some? ==> forall q: nat :: q < r.value ==> !MatchesAt(line, q)
  {
    var starts := seq(|line| + 1, q requires 0 <= q <= |line| => MatchesAt(line, q));
    assert forall q: nat :: q < |starts| ==> starts[q] == MatchesAt(line, q);
    FirstTrue(starts, 0)
  }

  /** The groups of a latency line as the pattern captures them, or `None`
      when the pattern is absent. */
  function ParseLineAsWritten(line: string): (r: Option<LatencyLine>)
    ensures r.Some? ==> Shaped(line, r.value) && OneDigitRate(r.value.rate)
    ensures r.None? <==> forall q: nat :: !MatchesAt(line, q)
    ensures r.Some? ==> exists q :: 0 <= q <= |line| && MatchAtAsWritten(line, q) == r
                           && forall q': nat :: q' < q ==> !MatchesAt(line, q')
  {
    match FirstMatch(line)
    case None => None
    case Some(q) =>
      MatchAtAsWrittenShape(line, q);
      MatchAtAsWritten(line, q)
  }

  /** The groups of a latency line with the whole rate number, or `None`
      when the pattern is absent. */
  function ParseLine(line: string): (r: Option<LatencyLine>)
    ensures r.Some? ==> Shaped(line, r.value) && DecimalRate(r.value.rate)
    ensures r.None? <==> forall q: nat :: !MatchesAt(line, q)
    ensures r.Some? ==> exists q :: 0 <= q <= |line| && MatchAt(line, q) == r
                           && forall q': nat :: q' < q ==> !MatchesAt(line, q')
  {
    match FirstMatch(line)
    case None => None
    case Some(q) =>
      MatchAtShape(line, q);
      MatchAt(line, q)
  }

  /** The literal capture and the whole number agree on which lines match
      and on the operation and count; the literal rate is the tail of the
      whole one that starts at its last integer digit. */
  lemma AsWrittenKeepsLastDigit(line: string)
    ensures ParseLineAsWritten(line).Some? <==> ParseLine(line).Some?
    ensures ParseLine(line).Some? ==>
              && ParseLineAsWritten(line).value.op == ParseLine(line).value.op
              && ParseLineAsWritten(line).value.count == ParseLine(line).value.count
              && exists k :: 0 <= k < |ParseLine(line).value.rate|
                             && ParseLineAsWritten(line).value.rate == ParseLine(line).value.rate[k..]
  {
    if FirstMatch(line).Some? {
      MatchAtKeepsLastDigit(line, FirstMatch(line).value);
    }
  }

  lemma MatchAtKeepsLastDigit(line: string, p: nat)
    requires p <= |line| && MatchesAt(line, p)
    ensures MatchAtAsWritten(line, p).value.op == MatchAt(line, p).value.op
    ensures MatchAtAsWritten(line, p).value.count == MatchAt(line, p).value.count
    ensures exists k :: 0 <= k < |MatchAt(line, p).value.rate|
                        && MatchAtAsWritten(line, p).value.rate == MatchAt(line, p).value.rate[k..]
  {
    MatchRateFacts(line, p);
    var m := MatchFrom(line, p).value;
    var lo := m.head.permAt + |PERMANENT| + 1;
    WholeRateFacts(line, lo, m.rateAt);
    KeepsLastDigitOf(line, p, m.head, m.rateAt, WholeRateStart(line, lo, m.rateAt), RateEnd(line, m.rateAt));
  }

  lemma KeepsLastDigitOf(line: string, p: nat, h: Head, d: nat, b: nat, f: nat)
    requires p <= |line| && MatchFrom(line, p) == Some(Match(h, d))
    requires h.permAt + |PERMANENT| + 1 <= d < |line|
    requires WholeRateStart(line, h.permAt + |PERMANENT| + 1, d) == b && RateEnd(line, d) == f
    requires b <= d < f && line[d..f] == line[b..f][d - b..]
    ensures MatchAtAsWritten(line, p).value.op == MatchAt(line, p).value.op
    ensures MatchAtAsWritten(line, p).value.count == MatchAt(line, p).value.count
    ensures exists k :: 0 <= k < |MatchAt(line, p).value.rate|
                        && MatchAtAsWritten(line, p).value.rate == MatchAt(line, p).value.rate[k..]
  {
    MatchAtOf(line, p, h, d);
    MatchAtAsWrittenOf(line, p, h, d);
    SuffixWitness(line[d..f], line[b..f], d - b);
  }

  lemma SuffixWitness(t: string, s: string, k: nat)
    requires k < |s| && t == s[k..]
    ensures exists j :: 0 <= j < |s| && t == s[j..]
  {
  }

  lemma {:induction false} DigitRunStartUnique(line: string, lo: nat, e: nat, b: nat)
    requires lo <= b <= e <= |line|
    requires forall k :: b <= k < e ==> IsDigit(line[k])
    requires b == lo || !IsDigit(line[b - 1])
    ensures DigitRunStart(line, lo, e) == b
    decreases e - b
  {
    if b < e {
      DigitRunStartUnique(line, lo, e - 1, b);
    }
  }

  // ----- timing lines as `zk-latencies.py` prints them -----

  /** `<op><gap1><count><gap2>permanent`: the message `print_elap` gets, for
      instance `created    10000 permanent`. */
  function TimingHead(op: string, gap1: string, count: string, gap2: string): string {
    op + gap1 + count + gap2 + PERMANENT
  }

  /** `<mid> <whole>.<frac>/sec)`: the rest of the line, ending in the rate
      that `%f/sec)` prints. */
  function TimingTail(mid: string, whole: string, frac: string): string {
    mid + " " + whole + "." + frac + PER_SEC
  }

  function TimingLine(op: string, gap1: string, count: string, gap2: string,
                      mid: string, whole: string, frac: string): string {
    TimingHead(op, gap1, count, gap2) + TimingTail(mid, whole, frac)
  }

  predicate AllSpace(s: string) {
    forall k :: 0 <= k < |s| ==> IsSpace(s[k])
  }

  predicate NoSpace(s: string) {
    forall k :: 0 <= k < |s| ==> NotSpace(s[k])
  }

  /** The fields of a timing line: an operation name, a znode count and a
      rate `whole.frac`, separated by whitespace as `%7d` pads them. */
  predicate TimingFields(op: string, gap1: string, count: string, gap2: string, whole: string, frac: string) {
    && |op| >= 1 && NoSpace(op)
    && |gap1| >= 1 && AllSpace(gap1)
    && |count| >= 1 && AllDigits(count)
    && |gap2| >= 1 && AllSpace(gap2)
    && |whole| >= 1 && AllDigits(whole)
    && |frac| >= 1 && AllDigits(frac)
  }

  lemma HeadSlices(op: string, gap1: string, count: string, gap2: string)
    ensures var h := TimingHead(op, gap1, count, gap2);
            var a := |op|; var b := a + |gap1|; var c := b + |count|; var pa := c + |gap2|;
            && |h| == pa + |PERMANENT|
            && h[..a] == op && h[a..b] == gap1 && h[b..c] == count && h[c..pa] == gap2
            && h[pa..] == PERMANENT
  {
    var x1 := op + gap1;
    var x2 := x1 + count;
    var x3 := x2 + gap2;
    SliceOfConcat(op, gap1);
    SliceOfConcat(x1, count);
    SliceOfConcat(x2, gap2);
    SliceOfConcat(x3, PERMANENT);
    var h := x3 + PERMANENT;
    assert h[..|x3|] == x3;
    assert h[..|op|] == x3[..|x2|][..|x1|][..|op|];
    assert h[|op|..|x1|] == x3[..|x2|][..|x1|][|op|..];
    assert h[|x1|..|x2|] == x3[..|x2|][|x1|..];
    assert h[|x2|..|x3|] == x3[|x2|..];
  }

  lemma TailSlices(mid: string, whole: string, frac: string)
    ensures var t := TimingTail(mid, whole, frac);
            var s := |mid|; var n := s + 1; var dot := n + |whole|; var f := dot + 1 + |frac|;
            && |t| == f + |PER_SEC|
            && t[s] == ' ' && t[n..dot] == whole && t[dot] == '.' && t[dot + 1..f] == frac
            && t[f..] == PER_SEC
  {
    var y1 := mid + " ";
    var y2 := y1 + whole;
    var y3 := y2 + ".";
    var y4 := y3 + frac;
    SliceOfConcat(y1, whole);
    SliceOfConcat(y2, ".");
    SliceOfConcat(y3, frac);
    SliceOfConcat(y4, PER_SEC);
    var t := y4 + PER_SEC;
    assert t[..|y4|] == y4;
    assert t[|y1|..|y2|] == y4[..|y3|][..|y2|][|y1|..];
    assert t[|y3|..|y4|] == y4[|y3|..];
  }

  lemma HeadPartSlices(h: string, t: string, op: string, gap1: string, count: string, gap2: string)
    requires h == TimingHead(op, gap1, count, gap2)
    ensures var line := h + t;
            var a := |op|; var b := a + |gap1|; var c := b + |count|; var pa := c + |gap2|;
            && line[..a] == op && line[a..b] == gap1 && line[b..c] == count && line[c..pa] == gap2
            && line[pa..pa + |PERMANENT|] == PERMANENT
  {
    HeadSlices(op, gap1, count, gap2);
    SliceOfConcat(h, t);
    var line := h + t;
    var a := |op|; var b := a + |gap1|; var c := b + |count|; var pa := c + |gap2|;
    assert line[..a] == h[..a];
    assert line[a..b] == h[a..b];
    assert line[b..c] == h[b..c];
    assert line[c..pa] == h[c..pa];
    assert line[pa..pa + |PERMANENT|] == h[pa..];
  }

  lemma TailPartSlices(h: string, t: string, mid: string, whole: string, frac: string)
    requires t == TimingTail(mid, whole, frac)
    ensures var line := h + t;
            var s := |h| + |mid|; var n := s + 1; var dot := n + |whole|; var f := dot + 1 + |frac|;
            && |line| == f + |PER_SEC|
            && line[s] == ' ' && line[n..dot] == whole && line[dot] == '.' && line[dot + 1..f] == frac
            && line[f..] == PER_SEC
  {
    TailSlices(mid, whole, frac);
    SliceOfConcat(h, t);
    var line := h + t;
    var s := |h| + |mid|; var n := s + 1; var dot := n + |whole|; var f := dot + 1 + |frac|;
    assert line[s] == t[s - |h|];
    assert line[n..dot] == t[n - |h|..dot - |h|];
    assert line[dot] == t[dot - |h|];
    assert line[dot + 1..f] == t[dot + 1 - |h|..f - |h|];
    assert line[f..] == t[f - |h|..];
  }

  lemma SliceChars(line: string, x: nat, y: nat, piece: string)
    requires x <= y <= |line| && line[x..y] == piece
    ensures forall k :: x <= k < y ==> line[k] == piece[k - x]
  {
  }

  /** The character facts the matcher needs, over any line whose slices are
      the pieces of a timing line. */
  lemma TimingFacts(line: string, op: string, gap1: string, count: string, gap2: string,
                    whole: string, frac: string, a: nat, b: nat, c: nat, pa: nat, s: nat, f: nat)
    requires TimingFields(op, gap1, count, gap2, whole, frac)
    requires a == |op| && b == a + |gap1| && c == b + |count| && pa == c + |gap2|
    requires pa + |PERMANENT| <= s && f == s + 1 + |whole| + 1 + |frac| && |line| == f + |PER_SEC|
    requires line[..a] == op && line[a..b] == gap1 && line[b..c] == count && line[c..pa] == gap2
    requires line[pa..pa + |PERMANENT|] == PERMANENT
    requires line[s] == ' ' && line[s + 1..s + 1 + |whole|] == whole && line[s + 1 + |whole|] == '.'
    requires line[s + 2 + |whole|..f] == frac && line[f..] == PER_SEC
    ensures IsHead(line, 0, Head(a, b, c, pa))
    ensures forall k :: s + 1 <= k < s + 1 + |whole| ==> IsDigit(line[k])
    ensures forall k :: s + 2 + |whole| <= k < f ==> IsDigit(line[k])
    ensures OccursAt(line, PER_SEC, f)
    ensures forall k :: f <= k < |line| ==> !IsDigit(line[k])
  {
    SliceChars(line, 0, a, op);
    SliceChars(line, a, b, gap1);
    SliceChars(line, b, c, count);
    SliceChars(line, c, pa, gap2);
    SliceChars(line, s + 1, s + 1 + |whole|, whole);
    SliceChars(line, s + 2 + |whole|, f, frac);
    SliceChars(line, f, |line|, PER_SEC);
    assert OccursAt(line, PERMANENT, pa);
  }

  lemma LastRateFromIs(line: string, lo: nat, hi: int, d: nat)
    requires lo <= d <= hi && RateFrom(line, d)
    requires forall d': nat :: d < d' <= hi ==> !RateFrom(line, d')
    ensures LastRateFrom(line, lo, hi) == Some(d)
  {
    LastRateFromSpec(line, lo, hi);
  }

  lemma RateAtLastDigit(line: string, dot: nat, f: nat)
    requires 0 < dot && dot + 1 < f && |line| == f + |PER_SEC|
    requires IsDigit(line[dot - 1]) && line[dot] == '.'
    requires forall k :: dot + 1 <= k < f ==> IsDigit(line[k])
    requires OccursAt(line, PER_SEC, f)
    ensures RateFrom(line, dot - 1) && RateEnd(line, dot - 1) == f
  {
    RunEndUnique(line, dot - 1, Digits, dot);
    RunEndUnique(line, dot + 1, Digits, f);
  }

  lemma NoRateAfter(line: string, dot: nat, f: nat)
    requires dot + 1 < f && |line| == f + |PER_SEC|
    requires line[dot] == '.'
    requires forall k :: dot + 1 <= k < f ==> IsDigit(line[k])
    requires line[f] == '/'
    requires forall k :: f <= k < |line| ==> !IsDigit(line[k])
    ensures forall d: nat :: dot - 1 < d <= |line| - 1 ==> !RateFrom(line, d)
  {
    forall d: nat | dot - 1 < d <= |line| - 1
      ensures !RateFrom(line, d)
    {
      if dot < d < f {
        RunEndUnique(line, d, Digits, f);
      } else {
        RunEndUnique(line, d, Digits, d);
      }
    }
  }

  /** The rate part of a timing line: the greedy `.+` stops at the last
      integer digit, and the rate group runs up to `/sec)`. */
  lemma RateOfTimingFacts(line: string, lo: nat, dot: nat, f: nat)
    requires lo < dot && dot + 1 < f && |line| == f + |PER_SEC|
    requires IsDigit(line[dot - 1]) && line[dot] == '.'
    requires forall k :: dot + 1 <= k < f ==> IsDigit(line[k])
    requires OccursAt(line, PER_SEC, f)
    requires forall k :: f <= k < |line| ==> !IsDigit(line[k])
    ensures LastRateFrom(line, lo, |line| - 1) == Some(dot - 1)
    ensures RateFrom(line, dot - 1) && RateEnd(line, dot - 1) == f
  {
    RateAtLastDigit(line, dot, f);
    assert line[f] == PER_SEC[0];
    NoRateAfter(line, dot, f);
    LastRateFromIs(line, lo, |line| - 1, dot - 1);
  }

  lemma HeadAtIsHead(line: string, p: nat, h: Head)
    requires p <= |line| && IsHead(line, p, h)
    ensures HeadAt(line, p) == Some(h)
  {
    HeadFields(line, p, h);
  }

  predicate TimingSlicesAt(line: string, op: string, gap1: string, count: string, gap2: string,
                           whole: string, frac: string, pa: nat, s: nat) {
    && pa == |op| + |gap1| + |count| + |gap2|
    && pa + |PERMANENT| <= s && |line| == s + 2 + |whole| + |frac| + |PER_SEC|
    && line[..|op|] == op && line[|op|..|op| + |gap1|] == gap1
    && line[|op| + |gap1|..pa - |gap2|] == count && line[pa - |gap2|..pa] == gap2
    && line[pa..pa + |PERMANENT|] == PERMANENT
    && line[s] == ' ' && line[s + 1..s + 1 + |whole|] == whole && line[s + 1 + |whole|] == '.'
    && line[s + 2 + |whole|..s + 2 + |whole| + |frac|] == frac
    && line[s + 2 + |whole| + |frac|..] == PER_SEC
  }

  lemma FirstMatchAtStart(line: string)
    requires MatchesAt(line, 0)
    ensures FirstMatch(line) == Some(0)
  {
  }

  /** On a line with a timing line's characters the search finds the match
      at the first character; the literal rate group starts at the last
      integer digit and the corrected one at the first. */
  lemma TimingCaptures(line: string, a: nat, b: nat, c: nat, pa: nat, n: nat, dot: nat, f: nat)
    requires IsHead(line, 0, Head(a, b, c, pa))
    requires pa + |PERMANENT| < n < dot && dot + 1 < f && |line| == f + |PER_SEC|
    requires !IsDigit(line[n - 1]) && line[dot] == '.'
    requires forall k :: n <= k < dot ==> IsDigit(line[k])
    requires forall k :: dot + 1 <= k < f ==> IsDigit(line[k])
    requires OccursAt(line, PER_SEC, f)
    requires forall k :: f <= k < |line| ==> !IsDigit(line[k])
    ensures MatchAtAsWritten(line, 0) == Some(LatencyLine(line[0..a], line[b..c], line[dot - 1..f]))
    ensures MatchAt(line, 0) == Some(LatencyLine(line[0..a], line[b..c], line[n..f]))
  {
    var lo := pa + |PERMANENT| + 1;
    RateOfTimingFacts(line, lo, dot, f);
    HeadAtIsHead(line, 0, Head(a, b, c, pa));
    WholeRateStartIs(line, lo, dot - 1, n);
    CapturesOfMatch(line, a, b, c, pa, lo, n, dot, f);
  }

  lemma CapturesOfMatch(line: string, a: nat, b: nat, c: nat, pa: nat, lo: nat, n: nat, dot: nat, f: nat)
    requires lo == pa + |PERMANENT| + 1 && lo <= dot - 1 && 0 < dot < |line|
    requires HeadAt(line, 0) == Some(Head(a, b, c, pa))
    requires LastRateFrom(line, lo, |line| - 1) == Some(dot - 1)
    requires RateFrom(line, dot - 1) && RateEnd(line, dot - 1) == f
    requires WholeRateStart(line, lo, dot - 1) == n
    ensures MatchAtAsWritten(line, 0) == Some(LatencyLine(line[0..a], line[b..c], line[dot - 1..f]))
    ensures MatchAt(line, 0) == Some(LatencyLine(line[0..a], line[b..c], line[n..f]))
  {
    assert MatchFrom(line, 0) == Some(Match(Head(a, b, c, pa), dot - 1));
    MatchAtAsWrittenOf(line, 0, Head(a, b, c, pa), dot - 1);
    CorrectedCapture(line, a, b, c, pa, n, dot, f);
  }

  /** The literal groups of a known match. */
  lemma MatchAtAsWrittenOf(line: string, p: nat, h: Head, d: nat)
    requires p <= |line| && MatchFrom(line, p) == Some(Match(h, d))
    requires d <= |line|
    ensures MatchAtAsWritten(line, p) == Some(LatencyLine(line[p..h.opEnd], line[h.countStart..h.countEnd],
                                              line[d..RateEnd(line, d)]))
  {
  }

  lemma CorrectedCapture(line: string, a: nat, b: nat, c: nat, pa: nat, n: nat, dot: nat, f: nat)
    requires 0 < dot < |line|
    requires MatchFrom(line, 0) == Some(Match(Head(a, b, c, pa), dot - 1))
    requires RateFrom(line, dot - 1) && RateEnd(line, dot - 1) == f
    requires pa + |PERMANENT| + 1 <= dot - 1
    requires WholeRateStart(line, pa + |PERMANENT| + 1, dot - 1) == n
    ensures MatchAt(line, 0) == Some(LatencyLine(line[0..a], line[b..c], line[n..f]))
  {
    MatchAtOf(line, 0, Head(a, b, c, pa), dot - 1);
  }

  /** The corrected groups of a known match. */
  lemma MatchAtOf(line: string, p: nat, h: Head, d: nat)
    requires p <= |line| && MatchFrom(line, p) == Some(Match(h, d))
    requires h.permAt + |PERMANENT| + 1 <= d < |line|
    ensures MatchAt(line, p) == Some(LatencyLine(line[p..h.opEnd], line[h.countStart..h.countEnd],
                                     line[WholeRateStart(line, h.permAt + |PERMANENT| + 1, d)..RateEnd(line, d)]))
  {
  }

  lemma WholeRateStartIs(line: string, lo: nat, d: nat, b: nat)
    requires lo <= b <= d < |line|
    requires forall k :: b <= k < d + 1 ==> IsDigit(line[k])
    requires b == lo || !IsDigit(line[b - 1])
    ensures WholeRateStart(line, lo, d) == b
  {
    DigitRunStartUnique(line, lo, d + 1, b);
  }

  /** When the first match is at the first character, both parsers report
      the groups of that match. */
  lemma ParseAtStart(line: string)
    requires FirstMatch(line) == Some(0)
    ensures ParseLineAsWritten(line) == MatchAtAsWritten(line, 0)
    ensures ParseLine(line) == MatchAt(line, 0)
  {
  }

  lemma TimingParse(line: string, a: nat, b: nat, c: nat, pa: nat, n: nat, dot: nat, f: nat)
    requires IsHead(line, 0, Head(a, b, c, pa))
    requires pa + |PERMANENT| < n < dot && dot + 1 < f && |line| == f + |PER_SEC|
    requires !IsDigit(line[n - 1]) && line[dot] == '.'
    requires forall k :: n <= k < dot ==> IsDigit(line[k])
    requires forall k :: dot + 1 <= k < f ==> IsDigit(line[k])
    requires OccursAt(line, PER_SEC, f)
    requires forall k :: f <= k < |line| ==> !IsDigit(line[k])
    ensures ParseLineAsWritten(line) == Some(LatencyLine(line[0..a], line[b..c], line[dot - 1..f]))
    ensures ParseLine(line) == Some(LatencyLine(line[0..a], line[b..c], line[n..f]))
  {
    TimingCaptures(line, a, b, c, pa, n, dot, f);
    FirstMatchAtStart(line);
    ParseAtStart(line);
  }

  /** The group boundaries of a line laid out like a timing line. */
  predicate TimingBounds(op: string, gap1: string, count: string, whole: string, frac: string,
                         s: nat, a: nat, b: nat, c: nat, n: nat, dot: nat, f: nat) {
    && a == |op| && b == a + |gap1| && c == b + |count|
    && n == s + 1 && dot == n + |whole| && f == dot + 1 + |frac|
  }

  /** Both parsers on a line laid out like a timing line, with the groups
      still as slices of the line. */
  lemma TimingParseAt(line: string, op: string, gap1: string, count: string, gap2: string,
                      whole: string, frac: string, pa: nat, s: nat,
                      a: nat, b: nat, c: nat, n: nat, dot: nat, f: nat)
    requires TimingFields(op, gap1, count, gap2, whole, frac)
    requires TimingSlicesAt(line, op, gap1, count, gap2, whole, frac, pa, s)
    requires TimingBounds(op, gap1, count, whole, frac, s, a, b, c, n, dot, f)
    ensures ParseLineAsWritten(line) == Some(LatencyLine(line[0..a], line[b..c], line[dot - 1..f]))
    ensures ParseLine(line) == Some(LatencyLine(line[0..a], line[b..c], line[n..f]))
  {
    TimingFacts(line, op, gap1, count, gap2, whole, frac, a, b, c, pa, s, f);
    TimingParse(line, a, b, c, pa, n, dot, f);
  }

  lemma ParseTimingAsWritten(line: string, op: string, gap1: string, count: string, gap2: string,
                             whole: string, frac: string, pa: nat, s: nat)
    requires TimingFields(op, gap1, count, gap2, whole, frac)
    requires TimingSlicesAt(line, op, gap1, count, gap2, whole, frac, pa, s)
    ensures ParseLineAsWritten(line) == Some(LatencyLine(op, count, [whole[|whole| - 1]] + "." + frac))
  {
    var a := |op|; var b := a + |gap1|; var c := b + |count|;
    var n := s + 1; var dot := n + |whole|; var f := dot + 1 + |frac|;
    TimingParseAt(line, op, gap1, count, gap2, whole, frac, pa, s, a, b, c, n, dot, f);
    TimingGroups(line, op, gap1, count, gap2, whole, frac, pa, s, a, b, c, n, dot, f);
  }

  lemma ParseTimingCorrected(line: string, op: string, gap1: string, count: string, gap2: string,
                             whole: string, frac: string, pa: nat, s: nat)
    requires TimingFields(op, gap1, count, gap2, whole, frac)
    requires TimingSlicesAt(line, op, gap1, count, gap2, whole, frac, pa, s)
    ensures ParseLine(line) == Some(LatencyLine(op, count, whole + "." + frac))
  {
    var a := |op|; var b := a + |gap1|; var c := b + |count|;
    var n := s + 1; var dot := n + |whole|; var f := dot + 1 + |frac|;
    TimingParseAt(line, op, gap1, count, gap2, whole, frac, pa, s, a, b, c, n, dot, f);
    TimingGroups(line, op, gap1, count, gap2, whole, frac, pa, s, a, b, c, n, dot, f);
  }

  /** The slices the groups cover, in terms of the printed fields. */
  lemma TimingGroups(line: string, op: string, gap1: string, count: string, gap2: string,
                     whole: string, frac: string, pa: nat, s: nat,
                     a: nat, b: nat, c: nat, n: nat, dot: nat, f: nat)
    requires TimingSlicesAt(line, op, gap1, count, gap2, whole, frac, pa, s) && |whole| >= 1
    requires TimingBounds(op, gap1, count, whole, frac, s, a, b, c, n, dot, f)
    ensures line[0..a] == op && line[b..c] == count
    ensures line[n..f] == whole + "." + frac
    ensures line[dot - 1..f] == [whole[|whole| - 1]] + "." + frac
  {
    assert line[0..a] == line[..a];
    assert line[n..f] == line[n..dot] + [line[dot]] + line[dot + 1..f];
    assert line[dot - 1] == line[n..dot][|whole| - 1];
    assert line[dot - 1..f] == [line[dot - 1]] + [line[dot]] + line[dot + 1..f];
  }

  /** As written: a timing line yields its operation and count, but only
      the last digit of the rate's integer part. */
  lemma TimingLineAsWritten(op: string, gap1: string, count: string, gap2: string,
                            mid: string, whole: string, frac: string)
    requires TimingFields(op, gap1, count, gap2, whole, frac)
    ensures ParseLineAsWritten(TimingLine(op, gap1, count, gap2, mid, whole, frac))
            == Some(LatencyLine(op, count, [whole[|whole| - 1]] + "." + frac))
  {
    TimingLineParses(op, gap1, count, gap2, mid, whole, frac);
  }

  /** So whenever the integer part has two digits or more, the stored rate
      is not the printed one. */
  lemma TimingLineLosesDigits(op: string, gap1: string, count: string, gap2: string,
                              mid: string, whole: string, frac: string)
    requires TimingFields(op, gap1, count, gap2, whole, frac) && |whole| >= 2
    ensures ParseLineAsWritten(TimingLine(op, gap1, count, gap2, mid, whole, frac))
            != Some(LatencyLine(op, count, whole + "." + frac))
  {
    TimingLineParses(op, gap1, count, gap2, mid, whole, frac);
  }

  /** Corrected: the same line yields the whole printed rate. */
  lemma TimingLineRoundTrip(op: string, gap1: string, count: string, gap2: string,
                            mid: string, whole: string, frac: string)
    requires TimingFields(op, gap1, count, gap2, whole, frac)
    ensures ParseLine(TimingLine(op, gap1, count, gap2, mid, whole, frac))
            == Some(LatencyLine(op, count, whole + "." + frac))
  {
    TimingLineParses(op, gap1, count, gap2, mid, whole, frac);
  }

  lemma TimingLineParses(op: string, gap1: string, count: string, gap2: string,
                         mid: string, whole: string, frac: string)
    requires TimingFields(op, gap1, count, gap2, whole, frac)
    ensures var line := TimingLine(op, gap1, count, gap2, mid, whole, frac);
            && ParseLineAsWritten(line) == Some(LatencyLine(op, count, [whole[|whole| - 1]] + "." + frac))
            && ParseLine(line) == Some(LatencyLine(op, count, whole + "." + frac))
  {
    var line := TimingLine(op, gap1, count, gap2, mid, whole, frac);
    var pa := |op| + |gap1| + |count| + |gap2|;
    var s := |TimingHead(op, gap1, count, gap2)| + |mid|;
    TimingLineSlices(op, gap1, count, gap2, mid, whole, frac, pa, s);
    ParseTimingAsWritten(line, op, gap1, count, gap2, whole, frac, pa, s);
    ParseTimingCorrected(line, op, gap1, count, gap2, whole, frac, pa, s);
  }

  /** Where the fields of a timing line sit. */
  lemma TimingLineSlices(op: string, gap1: string, count: string, gap2: string,
                         mid: string, whole: string, frac: string, pa: nat, s: nat)
    requires TimingFields(op, gap1, count, gap2, whole, frac)
    requires pa == |op| + |gap1| + |count| + |gap2|
    requires s == |TimingHead(op, gap1, count, gap2)| + |mid|
    ensures TimingSlicesAt(TimingLine(op, gap1, count, gap2, mid, whole, frac), op, gap1, count, gap2, whole, frac, pa, s)
  {
    var h := TimingHead(op, gap1, count, gap2);
    var t := TimingTail(mid, whole, frac);
    HeadPartSlices(h, t, op, gap1, count, gap2);
    TailPartSlices(h, t, mid, whole, frac);
  }

  /** Lines without `permanent`, such as the ephemeral-znode and watch
      lines, never match. */
  lemma EphemeralLineIgnored(line: string)
    requires !Contains(line, PERMANENT)
    ensures ParseLineAsWritten(line).None?
    ensures ParseLine(line).None?
  {
  }

  // ----- the map built from a whole file -----

  /** Which rate group a report stores: the pattern's literal group (what
      the script stores), or the whole printed number (what it evidently
      means to store). */
  datatype Capture = AsWritten | Corrected

  /** One line through the chosen capture. */
  function ParseWith(c: Capture, line: string): (r: Option<LatencyLine>)
    ensures c == AsWritten ==> r == ParseLineAsWritten(line)
    ensures c == Corrected ==> r == ParseLine(line)
  {
    match c
    case AsWritten => ParseLineAsWritten(line)
    case Corrected => ParseLine(line)
  }

  /** `test_info`, and the `znode_count` attribute (`None` until a line matches). */
  datatype Report = Report(rates: map<string, string>, znodeCount: Option<string>)

  /** The body of the loop in `ParseZKLatency.__init__`. */
  function AddLine(c: Capture, rep: Report, line: string): (r: Report)
    ensures ParseWith(c, line).None? ==> r == rep
    ensures ParseWith(c, line).Some? ==>
              && r.rates == rep.rates[ParseWith(c, line).value.op := ParseWith(c, line).value.rate]
              && r.znodeCount == Some(ParseWith(c, line).value.count)
  {
    match ParseWith(c, line)
    case None => rep
    case Some(l) => Report(rep.rates[l.op := l.rate], Some(l.count))
  }

  /** The loop of `ParseZKLatency.__init__` over already parsed lines. */
  function Gather(ms: seq<Option<LatencyLine>>): Report
    decreases |ms|
  {
    if |ms| == 0 then Report(map[], None)
    else
      var init := Gather(ms[..|ms| - 1]);
      match ms[|ms| - 1]
      case None => init
      case Some(l) => Report(init.rates[l.op := l.rate], Some(l.count))
  }

  /** Every line of a file through the chosen capture. */
  function Parsed(c: Capture, lines: seq<string>): (ms: seq<Option<LatencyLine>>)
    ensures |ms| == |lines|
    ensures forall i :: 0 <= i < |lines| ==> ms[i] == ParseWith(c, lines[i])
  {
    seq(|lines|, i requires 0 <= i < |lines| => ParseWith(c, lines[i]))
  }

  /** `ParseZKLatency(in_file)` over the lines of the file, in order. */
  function ParseReport(c: Capture, lines: seq<string>): (rep: Report)
    ensures |lines| == 0 ==> rep == Report(map[], None)
    ensures |lines| > 0 ==> rep == AddLine(c, ParseReport(c, lines[..|lines| - 1]), lines[|lines| - 1])
  {
    var ms := Parsed(c, lines);
    assert |lines| > 0 ==> Parsed(c, lines[..|lines| - 1]) == ms[..|ms| - 1];
    Gather(ms)
  }

  predicate HasOp(m: Option<LatencyLine>, op: string) {
    m.Some? && m.value.op == op
  }

  lemma {:induction false} GatherLastWins(ms: seq<Option<LatencyLine>>, op: string)
    ensures op in Gather(ms).rates <==> exists i :: 0 <= i < |ms| && HasOp(ms[i], op)
    ensures op in Gather(ms).rates ==>
              exists i :: && 0 <= i < |ms| && HasOp(ms[i], op)
                          && Gather(ms).rates[op] == ms[i].value.rate
                          && forall j :: i < j < |ms| ==> !HasOp(ms[j], op)
    decreases |ms|
  {
    if |ms| > 0 {
      var n := |ms| - 1;
      var init := ms[..n];
      GatherLastWins(init, op);
      assert forall i :: 0 <= i < n ==> init[i] == ms[i];
      if !HasOp(ms[n], op) && op in Gather(init).rates {
        var i :| && 0 <= i < |init| && HasOp(init[i], op)
                 && Gather(init).rates[op] == init[i].value.rate
                 && forall j :: i < j < |init| ==> !HasOp(init[j], op);
        assert forall j :: i < j < |ms| ==> !HasOp(ms[j], op);
      }
    }
  }

  lemma {:induction false} GatherLastCount(ms: seq<Option<LatencyLine>>)
    ensures Gather(ms).znodeCount.None? <==> forall i :: 0 <= i < |ms| ==> ms[i].None?
    ensures Gather(ms).znodeCount.Some? ==>
              exists i :: && 0 <= i < |ms| && ms[i].Some?
                          && Gather(ms).znodeCount.value == ms[i].value.count
                          && forall j :: i < j < |ms| ==> ms[j].None?
    decreases |ms|
  {
    if |ms| > 0 {
      var n := |ms| - 1;
      var init := ms[..n];
      GatherLastCount(init);
      assert forall i :: 0 <= i < n ==> init[i] == ms[i];
      if ms[n].None? && Gather(init).znodeCount.Some? {
        var i :| && 0 <= i < |init| && init[i].Some?
                 && Gather(init).znodeCount.value == init[i].value.count
                 && forall j :: i < j < |init| ==> init[j].None?;
        assert forall j :: i < j < |ms| ==> ms[j].None?;
      }
    }
  }

  /** An operation is in the map exactly when some line matches for it, and
      its rate is the one captured from the LAST such line. */
  lemma LastLineWins(c: Capture, lines: seq<string>, op: string)
    ensures op in ParseReport(c, lines).rates <==> exists i :: 0 <= i < |lines| && HasOp(ParseWith(c, lines[i]), op)
    ensures op in ParseReport(c, lines).rates ==>
              exists i :: && 0 <= i < |lines| && HasOp(ParseWith(c, lines[i]), op)
                          && ParseReport(c, lines).rates[op] == ParseWith(c, lines[i]).value.rate
                          && forall j :: i < j < |lines| ==> !HasOp(ParseWith(c, lines[j]), op)
  {
    GatherLastWins(Parsed(c, lines), op);
  }

  /** `znode_count` is the count of the last matching line, and stays unset
      when no line matches. */
  lemma ZnodeCountFromLastLine(c: Capture, lines: seq<string>)
    ensures ParseReport(c, lines).znodeCount.None? <==> forall i :: 0 <= i < |lines| ==> ParseWith(c, lines[i]).None?
    ensures ParseReport(c, lines).znodeCount.Some? ==>
              exists i :: && 0 <= i < |lines| && ParseWith(c, lines[i]).Some?
                          && ParseReport(c, lines).znodeCount.value == ParseWith(c, lines[i]).value.count
                          && forall j :: i < j < |lines| ==> ParseWith(c, lines[j]).None?
  {
    GatherLastCount(Parsed(c, lines));
  }

  /** A file holding one timing line, through either capture. */
  lemma TimingReport(c: Capture, op: string, gap1: string, count: string, gap2: string,
                     mid: string, whole: string, frac: string)
    requires TimingFields(op, gap1, count, gap2, whole, frac)
    ensures var line := TimingLine(op, gap1, count, gap2, mid, whole, frac);
            && ParseReport(c, [line]).znodeCount == Some(count)
            && op in ParseReport(c, [line]).rates
            && ParseReport(c, [line]).rates[op] == ParseWith(c, line).value.rate
  {
    var line := TimingLine(op, gap1, count, gap2, mid, whole, frac);
    TimingLineParses(op, gap1, count, gap2, mid, whole, frac);
    assert [line][..0] == [];
  }

  /** As written: the report of a timing line whose rate has two integer
      digits or more stores another number than the one printed. */
  lemma ReportLosesDigits(op: string, gap1: string, count: string, gap2: string,
                          mid: string, whole: string, frac: string)
    requires TimingFields(op, gap1, count, gap2, whole, frac) && |whole| >= 2
    ensures var rep := ParseReport(AsWritten, [TimingLine(op, gap1, count, gap2, mid, whole, frac)]);
            && op in rep.rates
            && rep.rates[op] == [whole[|whole| - 1]] + "." + frac
            && rep.rates[op] != whole + "." + frac
  {
    TimingReport(AsWritten, op, gap1, count, gap2, mid, whole, frac);
    TimingLineParses(op, gap1, count, gap2, mid, whole, frac);
    assert |[whole[|whole| - 1]] + "." + frac| < |whole + "." + frac|;
  }

  /** Corrected: the report of a timing line stores the printed rate. */
  lemma ReportRoundTrip(op: string, gap1: string, count: string, gap2: string,
                        mid: string, whole: string, frac: string)
    requires TimingFields(op, gap1, count, gap2, whole, frac)
    ensures var rep := ParseReport(Corrected, [TimingLine(op, gap1, count, gap2, mid, whole, frac)]);
            && op in rep.rates
            && rep.rates[op] == whole + "." + frac
            && rep.znodeCount == Some(count)
  {
    TimingReport(Corrected, op, gap1, count, gap2, mid, whole, frac);
    TimingLineParses(op, gap1, count, gap2, mid, whole, frac);
  }

  /** `get_info(field)`: the stored rate, or Python's KeyError. */
  function GetInfo(rep: Report, op: string): (r: Result<string>)
    ensures r.Ok? <==> op in rep.rates
    ensures r.Ok? ==> r.value == rep.rates[op]
    ensures r.Err? ==> r.error == KeyError(op)
  {
    if op in rep.rates then Ok(rep.rates[op]) else Err(KeyError(op))
  }
}
