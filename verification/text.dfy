/** Character classes and the few `str` operations the scripts use:
    `rstrip()`, `split(sep)`, `split(sep, 1)`, `sep.join(...)`, substring
    search, and the maximal runs that regular-expression classes such as
    `\d+` and `\s+` match. */
module Text {
  import opened Outcomes

  /** Python 2's `\s` on byte strings, and the characters `str.rstrip()` removes. */
  predicate IsSpace(c: char) {
    c == ' ' || c == '\t' || c == '\n' || c == '\r' || c == '\U{000B}' || c == '\U{000C}'
  }

  predicate NotSpace(c: char) {
    !IsSpace(c)
  }

  /** Python's `\d` on byte strings. */
  predicate IsDigit(c: char) {
    '0' <= c <= '9'
  }

  predicate AllDigits(s: string) {
    forall i :: 0 <= i < |s| ==> IsDigit(s[i])
  }

  /** The regular-expression classes `\d`, `\s` and `\S`. */
  datatype CharClass = Digits | Spaces | NonSpaces

  predicate InClass(c: char, k: CharClass) {
    match k
    case Digits => IsDigit(c)
    case Spaces => IsSpace(c)
    case NonSpaces => NotSpace(c)
  }

  /** End of the maximal run of characters of class `k` that starts at
      index `i`: what a greedy `\d+`, `\s+` or `\S+` consumes from `i`. */
  function RunEnd(s: string, i: nat, k: CharClass): (e: nat)
    requires i <= |s|
    ensures i <= e <= |s|
    decreases |s| - i
  {
    if i < |s| && InClass(s[i], k) then RunEnd(s, i + 1, k) else i
  }

  /** The run is maximal: every character in it is of the class, and the
      one after it is not. */
  lemma {:induction false} RunEndSpec(s: string, i: nat, k: CharClass)
    requires i <= |s|
    ensures forall j :: i <= j < RunEnd(s, i, k) ==> InClass(s[j], k)
    ensures RunEnd(s, i, k) == |s| || !InClass(s[RunEnd(s, i, k)], k)
    decreases |s| - i
  {
    if i < |s| && InClass(s[i], k) {
      RunEndSpec(s, i + 1, k);
    }
  }

  /** A run that ends at a character outside the class is the maximal run. */
  lemma {:induction false} RunEndUnique(s: string, i: nat, k: CharClass, e: nat)
    requires i <= e <= |s|
    requires forall j :: i <= j < e ==> InClass(s[j], k)
    requires e == |s| || !InClass(s[e], k)
    ensures RunEnd(s, i, k) == e
    decreases e - i
  {
    if i < e {
      RunEndUnique(s, i + 1, k, e);
    }
  }

  lemma SliceOfConcat(x: string, y: string)
    ensures (x + y)[..|x|] == x && (x + y)[|x|..] == y
  {
  }

  lemma DigitRunIsDigits(s: string, i: nat)
    requires i <= |s|
    ensures AllDigits(s[i..RunEnd(s, i, Digits)])
  {
    RunEndSpec(s, i, Digits);
  }

  /** `pat` occurs in `s` starting at index `i`. */
  predicate OccursAt(s: string, pat: string, i: nat) {
    i + |pat| <= |s| && s[i..i + |pat|] == pat
  }

  function ContainsFrom(s: string, pat: string, i: nat): (b: bool)
    ensures b <==> exists k: nat :: i <= k && OccursAt(s, pat, k)
    decreases |s| + 1 - i
  {
    if i + |pat| > |s| then false
    else OccursAt(s, pat, i) || ContainsFrom(s, pat, i + 1)
  }

  /** `re.search(pat, s)` for a pattern without metacharacters
      (`'apic_write'`, `'apic_read'`, `'pio_write'`). */
  function Contains(s: string, pat: string): (b: bool)
    ensures b <==> exists k: nat :: OccursAt(s, pat, k)
  {
    ContainsFrom(s, pat, 0)
  }

  /** Index of the first occurrence of `c`, as `str.find` would report it. */
  function IndexOf(s: string, c: char): (r: Option<nat>)
    ensures r.Some? ==> r.value < |s| && s[r.value] == c && c !in s[..r.value]
    ensures r.None? <==> c !in s
  {
    if |s| == 0 then None
    else if s[0] == c then Some(0)
    else
      match IndexOf(s[1..], c)
      case None => None
      case Some(i) => assert s[1..][..i] == s[1..i + 1]; Some(i + 1)
  }

  /** `s.rstrip()`: `s` without its trailing whitespace. */
  function RStrip(s: string): (r: string)
    ensures r <= s
    ensures |r| == 0 || !IsSpace(r[|r| - 1])
    ensures forall i :: |r| <= i < |s| ==> IsSpace(s[i])
    decreases |s|
  {
    if |s| > 0 && IsSpace(s[|s| - 1]) then RStrip(s[..|s| - 1]) else s
  }

  /** `s.split(c, 1)`: one piece when `c` does not occur, otherwise the text
      before the first `c` and everything after it. */
  function SplitOnce(s: string, c: char): (r: seq<string>)
    ensures 1 <= |r| <= 2
    ensures |r| == 1 <==> c !in s
    ensures |r| == 1 ==> r[0] == s
    ensures |r| == 2 ==> c !in r[0] && r[0] + [c] + r[1] == s
  {
    match IndexOf(s, c)
    case None => [s]
    case Some(i) => assert s[..i] + [c] + s[i + 1..] == s; [s[..i], s[i + 1..]]
  }

  /** `s.split(c)` with an explicit separator: empty pieces are kept. */
  function Split(s: string, c: char): (r: seq<string>)
    ensures |r| >= 1
    decreases |s|
  {
    match IndexOf(s, c)
    case None => [s]
    case Some(i) => [s[..i]] + Split(s[i + 1..], c)
  }

  /** `c.join(pieces)`. */
  function Join(pieces: seq<string>, c: char): string {
    if |pieces| == 0 then ""
    else if |pieces| == 1 then pieces[0]
    else pieces[0] + [c] + Join(pieces[1..], c)
  }

  /** Number of occurrences of `c` in `s`. */
  function CountChar(s: string, c: char): nat {
    if |s| == 0 then 0 else (if s[0] == c then 1 else 0) + CountChar(s[1..], c)
  }

  lemma {:induction false} CountCharAppend(a: string, b: string, c: char)
    ensures CountChar(a + b, c) == CountChar(a, c) + CountChar(b, c)
    decreases |a|
  {
    if |a| == 0 {
      assert a + b == b;
    } else {
      assert (a + b)[1..] == a[1..] + b;
      CountCharAppend(a[1..], b, c);
    }
  }

  lemma {:induction false} CountCharAbsent(s: string, c: char)
    requires c !in s
    ensures CountChar(s, c) == 0
    decreases |s|
  {
    if |s| > 0 {
      assert s[1..] <= s[1..];
      assert forall x :: x in s[1..] ==> x in s;
      CountCharAbsent(s[1..], c);
    }
  }

  /** Joining the pieces of a split gives back the string. */
  lemma {:induction false} JoinSplit(s: string, c: char)
    ensures Join(Split(s, c), c) == s
    decreases |s|
  {
    match IndexOf(s, c)
    case None =>
    case Some(i) =>
      JoinSplit(s[i + 1..], c);
      var rest := Split(s[i + 1..], c);
      assert Split(s, c) == [s[..i]] + rest;
      assert ([s[..i]] + rest)[1..] == rest;
      assert s[..i] + [c] + s[i + 1..] == s;
  }

  /** A split has one more piece than there are separators, and no piece
      contains the separator. */
  lemma {:induction false} SplitPieces(s: string, c: char)
    ensures |Split(s, c)| == CountChar(s, c) + 1
    ensures forall k :: 0 <= k < |Split(s, c)| ==> c !in Split(s, c)[k]
    decreases |s|
  {
    match IndexOf(s, c)
    case None =>
      CountCharAbsent(s, c);
    case Some(i) =>
      SplitPieces(s[i + 1..], c);
      SplitCons(s, c, i);
      CountAroundFirst(s, c, i);
      var rest := Split(s[i + 1..], c);
      assert forall k :: 0 < k < |Split(s, c)| ==> Split(s, c)[k] == rest[k - 1];
  }

  /** The first piece of a split ends at the first separator. */
  lemma SplitCons(s: string, c: char, i: nat)
    requires IndexOf(s, c) == Some(i)
    ensures Split(s, c) == [s[..i]] + Split(s[i + 1..], c)
  {
  }

  lemma CountAroundFirst(s: string, c: char, i: nat)
    requires IndexOf(s, c) == Some(i)
    ensures CountChar(s, c) == 1 + CountChar(s[i + 1..], c)
  {
    assert s == s[..i] + ([c] + s[i + 1..]);
    CountCharAppend(s[..i], [c] + s[i + 1..], c);
    CountCharAppend([c], s[i + 1..], c);
    CountCharAbsent(s[..i], c);
    assert CountChar([c], c) == 1 + CountChar([c][1..], c);
    assert [c][1..] == [];
  }

  /** The first occurrence of `c` is the one with no `c` before it. */
  lemma IndexOfAt(s: string, c: char, i: nat)
    requires i < |s| && s[i] == c && c !in s[..i]
    ensures IndexOf(s, c) == Some(i)
  {
    assert c in s;
  }

  lemma JoinCons(pieces: seq<string>, c: char)
    requires |pieces| >= 2
    ensures Join(pieces, c) == pieces[0] + [c] + Join(pieces[1..], c)
  {
  }

  lemma AroundSeparator(p: string, c: char, rest: string)
    ensures (p + [c] + rest)[..|p|] == p
    ensures (p + [c] + rest)[|p|] == c
    ensures (p + [c] + rest)[|p| + 1..] == rest
  {
  }

  /** Splitting a join gives back the pieces, provided no piece contains the
      separator (the converse of `JoinSplit`). */
  lemma {:induction false} SplitJoin(pieces: seq<string>, c: char)
    requires |pieces| >= 1
    requires forall k :: 0 <= k < |pieces| ==> c !in pieces[k]
    ensures Split(Join(pieces, c), c) == pieces
    decreases |pieces|
  {
    if |pieces| == 1 {
    } else {
      var p := pieces[0];
      var rest := Join(pieces[1..], c);
      var s := p + [c] + rest;
      JoinCons(pieces, c);
      AroundSeparator(p, c, rest);
      IndexOfAt(s, c, |p|);
      SplitCons(s, c, |p|);
      SplitJoin(pieces[1..], c);
      assert pieces == [p] + pieces[1..];
    }
  }
}
