/** Kernel trace lines, shared by both trace scripts: the timestamp token
    that `re.compile('.+\s(\d+)\.(\d+):\s.+')` finds, the microsecond stamp
    built from it, the per-pattern event extraction, and the event rate. */
module TraceLine {
  import opened Outcomes
  import opened Text
  import Decimal

  const USEC_PER_SEC: int := 1000000

  /** The two digit groups of a timestamp token, as `long` reads them. */
  datatype Timestamp = Timestamp(sec: nat, usec: nat)

  /** `long(ts_usec) + USEC_PER_SEC * long(ts_sec)`. */
  function Micros(t: Timestamp): int {
    t.usec + USEC_PER_SEC * t.sec
  }

  /** When the microsecond field is below one second, the stamp determines
      both fields: division and remainder by 10^6 give them back. */
  lemma MicrosSplits(t: Timestamp)
    requires t.usec < USEC_PER_SEC
    ensures Micros(t) / USEC_PER_SEC == t.sec
    ensures Micros(t) % USEC_PER_SEC == t.usec
  {
  }

  /** Two distinct well-formed timestamps never share a stamp. */
  lemma MicrosInjective(t: Timestamp, u: Timestamp)
    requires t.usec < USEC_PER_SEC && u.usec < USEC_PER_SEC
    requires Micros(t) == Micros(u)
    ensures t == u
  {
    MicrosSplits(t);
    MicrosSplits(u);
  }

  /** The regex matches with its `\s` at index `w`: at least one character
      before it, then digits, `.`, digits, `:`, a whitespace character and at
      least one more character. */
  predicate TokenAt(line: string, w: nat) {
    && 1 <= w < |line|
    && IsSpace(line[w])
    && var dot := RunEnd(line, w + 1, Digits);
    && w + 1 < dot < |line|
    && line[dot] == '.'
    && var colon := RunEnd(line, dot + 1, Digits);
    && dot + 1 < colon
    && colon + 2 < |line|
    && line[colon] == ':'
    && IsSpace(line[colon + 1])
  }

  /** The two groups of the match at `w`, read as numbers. */
  function TokenFields(line: string, w: nat): Timestamp
    requires TokenAt(line, w)
  {
    var dot := RunEnd(line, w + 1, Digits);
    var colon := RunEnd(line, dot + 1, Digits);
    DigitRunIsDigits(line, w + 1);
    DigitRunIsDigits(line, dot + 1);
    Timestamp(Decimal.Value(line[w + 1..dot]), Decimal.Value(line[dot + 1..colon]))
  }

  /** The greedy leading `.+` backtracks from the end of the line, so the
      match used is the one with the largest `w`; this scans down from `hi`. */
  function LastTokenAtOrBelow(line: string, hi: int): (r: Option<nat>)
    ensures r.Some? ==> r.value <= hi && TokenAt(line, r.value)
    ensures r.Some? ==> forall w: nat :: r.value < w <= hi ==> !TokenAt(line, w)
    ensures r.None? ==> forall w: nat :: w <= hi ==> !TokenAt(line, w)
    decreases hi
  {
    if hi < 1 then None
    else if TokenAt(line, hi) then Some(hi)
    else LastTokenAtOrBelow(line, hi - 1)
  }

  /** `parse_time.search(line)` with its two groups converted by `long`.
      The conversion cannot fail: both groups are digit runs. */
  function ParseTime(line: string): (r: Option<Timestamp>)
    ensures r.None? <==> forall w: nat :: !TokenAt(line, w)
    ensures r.Some? ==> exists w: nat :: && TokenAt(line, w)
                                         && r.value == TokenFields(line, w)
                                         && forall v: nat :: w < v ==> !TokenAt(line, v)
  {
    match LastTokenAtOrBelow(line, |line| - 1)
    case None => None
    case Some(w) => Some(TokenFields(line, w))
  }

  /** A line written as `<prefix> <sec>.<usec>: <message>` with a message
      free of whitespace is read back as that timestamp. */
  lemma ParseFormattedLine(prefix: string, sec: string, usec: string, msg: string)
    requires |prefix| >= 1 && |sec| >= 1 && |usec| >= 1 && |msg| >= 1
    requires AllDigits(sec) && AllDigits(usec)
    requires forall k :: 0 <= k < |msg| ==> !IsSpace(msg[k])
    ensures ParseTime(prefix + " " + sec + "." + usec + ": " + msg)
         == Some(Timestamp(Decimal.Value(sec), Decimal.Value(usec)))
  {
    var line := prefix + " " + sec + "." + usec + ": " + msg;
    var w := |prefix|;
    var dot := w + 1 + |sec|;
    var colon := dot + 1 + |usec|;
    FormattedLayout(line, prefix, sec, usec, msg);
    FormattedToken(line, w, dot, colon, sec, usec, msg);
    FormattedTokenIsLast(line, w, dot, colon, sec, usec, msg);
    ParseTimeAt(line, w);
  }

  /** Where the pieces of a formatted line sit: the token's space at `w`,
      the `.` at `dot` and the `:` at `colon`. */
  predicate FormattedAt(line: string, w: nat, dot: nat, colon: nat, sec: string, usec: string, msg: string) {
    && 1 <= w && dot == w + 1 + |sec| && colon == dot + 1 + |usec| && |line| == colon + 2 + |msg|
    && line[w] == ' ' && line[w + 1..dot] == sec && line[dot] == '.'
    && line[dot + 1..colon] == usec && line[colon] == ':' && line[colon + 1] == ' '
    && line[colon + 2..] == msg
  }

  lemma FormattedLayout(line: string, prefix: string, sec: string, usec: string, msg: string)
    requires |prefix| >= 1
    requires line == prefix + " " + sec + "." + usec + ": " + msg
    ensures FormattedAt(line, |prefix|, |prefix| + 1 + |sec|, |prefix| + 2 + |sec| + |usec|, sec, usec, msg)
  {
    var w := |prefix|;
    var dot := w + 1 + |sec|;
    var colon := dot + 1 + |usec|;
    var tail := "." + usec + ": " + msg;
    assert line == prefix + " " + sec + tail;
    assert line[w + 1..dot] == sec;
    assert line[dot..] == tail;
    assert line[dot + 1..colon] == usec by {
      assert tail[1..1 + |usec|] == usec;
    }
    assert line[colon..] == ": " + msg by {
      assert tail[1 + |usec|..] == ": " + msg;
    }
    assert line[colon + 2..] == msg by {
      assert (": " + msg)[2..] == msg;
    }
  }

  lemma FormattedToken(line: string, w: nat, dot: nat, colon: nat, sec: string, usec: string, msg: string)
    requires FormattedAt(line, w, dot, colon, sec, usec, msg)
    requires |sec| >= 1 && |usec| >= 1 && |msg| >= 1
    requires AllDigits(sec) && AllDigits(usec)
    ensures TokenAt(line, w)
    ensures TokenFields(line, w) == Timestamp(Decimal.Value(sec), Decimal.Value(usec))
  {
    TokenFromPieces(line, w, dot, colon);
  }

  /** With a token at `w` and none after it, `parse_time` reads the token
      at `w`. */
  lemma ParseTimeAt(line: string, w: nat)
    requires TokenAt(line, w)
    requires forall v: nat :: w < v ==> !TokenAt(line, v)
    ensures ParseTime(line) == Some(TokenFields(line, w))
  {
    var r := LastTokenAtOrBelow(line, |line| - 1);
    assert r.Some? && w <= r.value;
  }

  lemma TokenFromPieces(line: string, w: nat, dot: nat, colon: nat)
    requires 1 <= w && w + 1 < dot && dot + 1 < colon && colon + 2 < |line|
    requires IsSpace(line[w]) && line[dot] == '.' && line[colon] == ':' && IsSpace(line[colon + 1])
    requires AllDigits(line[w + 1..dot]) && AllDigits(line[dot + 1..colon])
    ensures TokenAt(line, w)
    ensures TokenFields(line, w) == Timestamp(Decimal.Value(line[w + 1..dot]), Decimal.Value(line[dot + 1..colon]))
  {
    DigitRunEndsAt(line, w + 1, dot);
    DigitRunEndsAt(line, dot + 1, colon);
  }

  lemma FormattedTokenIsLast(line: string, w: nat, dot: nat, colon: nat, sec: string, usec: string, msg: string)
    requires FormattedAt(line, w, dot, colon, sec, usec, msg)
    requires AllDigits(sec) && AllDigits(usec) && |msg| >= 1
    requires forall k :: 0 <= k < |msg| ==> !IsSpace(msg[k])
    ensures forall v: nat :: w < v ==> !TokenAt(line, v)
  {
    forall v: nat | w < v
      ensures !TokenAt(line, v)
    {
      if v < dot {
        assert line[v] == line[w + 1..dot][v - w - 1];
      } else if v == dot {
      } else if v < colon {
        assert line[v] == line[dot + 1..colon][v - dot - 1];
      } else if v == colon {
      } else if v == colon + 1 {
        NoTokenAfterColon(line, colon, msg);
      } else if v < |line| {
        assert line[v] == line[colon + 2..][v - colon - 2];
      }
    }
  }

  lemma DigitRunEndsAt(line: string, i: nat, e: nat)
    requires i <= e < |line|
    requires AllDigits(line[i..e]) && !IsDigit(line[e])
    ensures RunEnd(line, i, Digits) == e
    decreases e - i
  {
    if i < e {
      assert IsDigit(line[i]) by { assert line[i..e][0] == line[i]; }
      assert line[i + 1..e] == line[i..e][1..];
      DigitRunEndsAt(line, i + 1, e);
    }
  }

  /** The space after `:` cannot start a second token when the rest of the
      line has no whitespace. */
  lemma NoTokenAfterColon(line: string, colon: nat, msg: string)
    requires colon + 2 <= |line| && line[colon + 2..] == msg && |msg| >= 1
    requires forall k :: 0 <= k < |msg| ==> !IsSpace(msg[k])
    ensures !TokenAt(line, colon + 1)
  {
  }

  /** What one trace line contributes to the series for `pattern`: nothing
      when the pattern does not occur, its stamp when it does, and the
      "Wrong format." exit when it occurs in a line without a timestamp. */
  function MatchStamp(pattern: string, line: string): (r: Result<Option<int>>)
    ensures r.Ok? <==> !Contains(line, pattern) || ParseTime(line).Some?
    ensures r.Ok? ==> (r.value.Some? <==> Contains(line, pattern))
    ensures r.Ok? && r.value.Some? ==> r.value.value == Micros(ParseTime(line).value)
  {
    if !Contains(line, pattern) then Ok(None)
    else
      match ParseTime(line)
      case None => Err(WrongFormat)
      case Some(t) => Ok(Some(Micros(t)))
  }

  /** No line of `lines` makes the series for `pattern` exit. */
  predicate WellFormed(pattern: string, lines: seq<string>)
    decreases |lines|
  {
    |lines| == 0 || (MatchStamp(pattern, lines[0]).Ok? && WellFormed(pattern, lines[1..]))
  }

  /** A trace is rejected exactly when some line contains the pattern but
      carries no timestamp. */
  lemma {:induction false} WellFormedIff(pattern: string, lines: seq<string>)
    ensures WellFormed(pattern, lines) <==>
            forall i :: 0 <= i < |lines| ==> !Contains(lines[i], pattern) || ParseTime(lines[i]).Some?
    decreases |lines|
  {
    if |lines| > 0 {
      WellFormedIff(pattern, lines[1..]);
      assert forall i :: 0 < i < |lines| ==> lines[i] == lines[1..][i - 1];
    }
  }

  /** Reference definition: the stamps of the lines that contain `pattern`,
      in line order. */
  function Stamps(pattern: string, lines: seq<string>): (r: seq<int>)
    requires WellFormed(pattern, lines)
    ensures |r| <= |lines|
  {
    if |lines| == 0 then []
    else
      var rest := Stamps(pattern, lines[1..]);
      match MatchStamp(pattern, lines[0]).value
      case None => rest
      case Some(u) => [u] + rest
  }

  /** What the first line contributes to `Stamps`. */
  function StampOf(pattern: string, line: string): seq<int>
    requires MatchStamp(pattern, line).Ok?
  {
    match MatchStamp(pattern, line).value
    case None => []
    case Some(u) => [u]
  }

  lemma StampsCons(pattern: string, lines: seq<string>)
    requires |lines| > 0 && WellFormed(pattern, lines)
    ensures WellFormed(pattern, lines[1..])
    ensures Stamps(pattern, lines) == StampOf(pattern, lines[0]) + Stamps(pattern, lines[1..])
  {
  }

  /** Time between the first and the last event, in microseconds. */
  function Duration(events: seq<int>): int
    requires |events| > 0
  {
    events[|events| - 1] - events[0]
  }

  /** `get_rate` / `get_throughput`: events per second over the span from the
      first to the last event, as an exact real. An empty series is the
      "Error: No event!" exit; a zero span (one event, or equal first and
      last stamps) is Python's ZeroDivisionError. */
  function Rate(events: seq<int>): (r: Result<real>)
    ensures r.Ok? <==> |events| > 0 && Duration(events) != 0
    ensures |events| == 0 ==> r == Err(NoEvent)
    ensures |events| > 0 && Duration(events) == 0 ==> r == Err(ZeroDivision)
    ensures r.Ok? ==> r.value * (Duration(events) as real) == (|events| * USEC_PER_SEC) as real
  {
    if |events| == 0 then Err(NoEvent)
    else if Duration(events) == 0 then Err(ZeroDivision)
    else Ok((|events| * USEC_PER_SEC) as real / (Duration(events) as real))
  }
}
