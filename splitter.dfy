/**
 * The splitter of the browser worker's WebSocket stream: text arrives in
 * messages of any size, and each complete top-level JSON object or array is
 * cut out by counting `{`/`[` against `}`/`]` outside double-quoted strings,
 * with backslash escapes tracked inside strings. Characters before an
 * opening bracket are skipped; an incomplete object waits in the buffer for
 * the next message; a leftover of more than 10000 characters is discarded.
 */
module Splitter {
  import opened Wrappers

  const MAX_BUFFER: nat := 10000

  predicate IsOpener(c: char) {
    c == '{' || c == '['
  }

  predicate IsCloser(c: char) {
    c == '}' || c == ']'
  }

  /** The inner scan's state: the bracket depth, whether it is inside a string, whether the next character is escaped. */
  datatype ScanState = ScanState(depth: int, inStr: bool, esc: bool)

  const START: ScanState := ScanState(0, false, false)

  /** The state after character `c`: a quote outside an escape flips the string flag, a backslash in a string flips the escape flag, and a bracket outside a string moves the depth. */
  function Next(st: ScanState, c: char): ScanState {
    var inStr := if c == '"' && !st.esc then !st.inStr else st.inStr;
    var esc := if c == '\\' && inStr then !st.esc else false;
    var depth := if !inStr && IsOpener(c) then st.depth + 1
                 else if !inStr && IsCloser(c) then st.depth - 1
                 else st.depth;
    ScanState(depth, inStr, esc)
  }

  /** Character `c` is a closing bracket outside a string that brings the depth back to 0. */
  predicate Closes(st: ScanState, c: char) {
    !Next(st, c).inStr && IsCloser(c) && Next(st, c).depth == 0
  }

  /** The inner scan from index `i` in state `st`: the index where the depth returns to 0, or None if the text ends first. */
  function Scan(s: string, i: nat, st: ScanState): (r: Option<nat>)
    requires i <= |s|
    ensures r.Some? ==> i <= r.value < |s| && IsCloser(s[r.value])
    decreases |s| - i
  {
    if i == |s| then None
    else if Closes(st, s[i]) then Some(i)
    else Scan(s, i + 1, Next(st, s[i]))
  }

  /** What the outer loop makes of the text: a skipped character or a candidate handed to `JSON.parse`. */
  datatype Piece = Skipped(c: char) | Candidate(text: string)

  /**
   * The outer loop from `start`: the pieces it produces and the index where it
   * stops (the end of the text, or an opening bracket whose object is incomplete).
   */
  function SplitFrom(s: string, start: nat): (r: (seq<Piece>, nat))
    requires start <= |s|
    ensures start <= r.1 <= |s|
    decreases |s| - start
  {
    if start == |s| then ([], |s|)
    else if !IsOpener(s[start]) then Prepend(Skipped(s[start]), SplitFrom(s, start + 1))
    else match Scan(s, start, START)
      case None => ([], start)
      case Some(e) => Prepend(Candidate(s[start..e + 1]), SplitFrom(s, e + 1))
  }

  /** One more piece ahead of the rest of the loop's. */
  function Prepend(q: Piece, r: (seq<Piece>, nat)): (seq<Piece>, nat) {
    ([q] + r.0, r.1)
  }

  /** What a piece hands to `JSON.parse`: its text if it is a candidate. */
  function Own(q: Piece): seq<string> {
    if q.Candidate? then [q.text] else []
  }

  /** The characters a piece covers. */
  function Text(q: Piece): string {
    if q.Candidate? then q.text else [q.c]
  }

  function Candidates(pieces: seq<Piece>): seq<string> {
    if |pieces| == 0 then [] else Own(pieces[0]) + Candidates(pieces[1..])
  }

  function Flatten(pieces: seq<Piece>): string {
    if |pieces| == 0 then [] else Text(pieces[0]) + Flatten(pieces[1..])
  }

  /** The buffer after a message: the unconsumed rest, unless it is longer than 10000 characters. */
  function Leftover(s: string): (r: string)
    ensures |r| <= MAX_BUFFER
  {
    var k := SplitFrom(s, 0).1;
    if |s| - k > MAX_BUFFER then [] else s[k..]
  }

  // ---------------------------------------------------------------------------
  // Properties of the splitter

  lemma FlattenCons(q: Piece, p: seq<Piece>)
    ensures Flatten([q] + p) == Text(q) + Flatten(p)
  {
    assert ([q] + p)[0] == q && ([q] + p)[1..] == p;
  }

  lemma StringAssoc(a: string, b: string, c: string)
    ensures (a + b) + c == a + (b + c)
  {
  }

  /** A piece covering `s[start..next]` ahead of pieces that, with what is left, cover `s[next..]` covers `s[start..]`. */
  lemma ReconstructsStep(s: string, start: nat, next: nat, q: Piece, r: (seq<Piece>, nat))
    requires start <= next <= r.1 <= |s| && Text(q) == s[start..next]
    requires Flatten(r.0) + s[r.1..] == s[next..]
    ensures Flatten(Prepend(q, r).0) + s[Prepend(q, r).1..] == s[start..]
  {
    calc {
      Flatten(Prepend(q, r).0) + s[Prepend(q, r).1..];
      Flatten([q] + r.0) + s[r.1..];
      { FlattenCons(q, r.0); }
      (Text(q) + Flatten(r.0)) + s[r.1..];
      { StringAssoc(Text(q), Flatten(r.0), s[r.1..]); }
      Text(q) + (Flatten(r.0) + s[r.1..]);
      s[start..next] + s[next..];
      { assert s[start..] == s[start..next] + s[next..]; }
      s[start..];
    }
  }

  /** The pieces from `start`, followed by what is left, are the text from `start`. */
  ghost predicate Reconstructs(s: string, start: nat)
    requires start <= |s|
  {
    Flatten(SplitFrom(s, start).0) + s[SplitFrom(s, start).1..] == s[start..]
  }

  lemma {:induction false} ReconstructsSkip(s: string, start: nat)
    requires start < |s| && !IsOpener(s[start])
    ensures Reconstructs(s, start)
    decreases |s| - start, 0
  {
    SplitReconstructs(s, start + 1);
    SplitSkip(s, start);
    assert Text(Skipped(s[start])) == s[start..start + 1];
    ReconstructsStep(s, start, start + 1, Skipped(s[start]), SplitFrom(s, start + 1));
  }

  lemma {:induction false} ReconstructsCandidate(s: string, start: nat, e: nat)
    requires start < |s| && IsOpener(s[start]) && Scan(s, start, START) == Some(e)
    ensures Reconstructs(s, start)
    decreases |s| - start, 0
  {
    SplitReconstructs(s, e + 1);
    SplitCandidate(s, start, e);
    ReconstructsStep(s, start, e + 1, Candidate(s[start..e + 1]), SplitFrom(s, e + 1));
  }

  lemma ReconstructsStop(s: string, start: nat)
    requires start <= |s|
    requires start == |s| || (IsOpener(s[start]) && Scan(s, start, START).None?)
    ensures Reconstructs(s, start)
  {
    assert SplitFrom(s, start) == ([], start);
    assert Flatten([]) + s[start..] == s[start..];
  }

  /** The pieces, in order, followed by what is left, are exactly the text. */
  lemma {:induction false} SplitReconstructs(s: string, start: nat)
    requires start <= |s|
    ensures Reconstructs(s, start)
    decreases |s| - start, 1
  {
    if start < |s| && !IsOpener(s[start]) {
      ReconstructsSkip(s, start);
    } else if start < |s| && Scan(s, start, START).Some? {
      ReconstructsCandidate(s, start, Scan(s, start, START).value);
    } else {
      ReconstructsStop(s, start);
    }
  }

  /** Where the loop stops: at the end, or at an opening bracket whose scan does not finish. */
  lemma {:induction false} SplitStops(s: string, start: nat)
    requires start <= |s|
    ensures var k := SplitFrom(s, start).1;
      k == |s| || (IsOpener(s[k]) && Scan(s, k, START).None?)
    decreases |s| - start
  {
    if start < |s| {
      if !IsOpener(s[start]) {
        SplitStops(s, start + 1);
      } else if Scan(s, start, START).Some? {
        SplitStops(s, Scan(s, start, START).value + 1);
      }
    }
  }

  /** The scan only reads characters up to where it ends, and reads them by position from its start. */
  lemma {:induction false} ScanWindow(s: string, lo: nat, hi: nat, i: nat, st: ScanState)
    requires lo <= i <= hi <= |s|
    requires Scan(s, i, st).Some? && Scan(s, i, st).value < hi
    ensures Scan(s[lo..hi], i - lo, st) == Some(Scan(s, i, st).value - lo)
    decreases |s| - i
  {
    assert s[lo..hi][i - lo] == s[i];
    if !Closes(st, s[i]) {
      ScanWindow(s, lo, hi, i + 1, Next(st, s[i]));
    }
  }

  /** A candidate starts with an opening bracket and, split again on its own, is itself exactly one candidate. */
  predicate SelfDelimiting(t: string) {
    |t| >= 2 && IsOpener(t[0]) && IsCloser(t[|t| - 1]) && Scan(t, 0, START) == Some(|t| - 1)
  }

  /** A skipped character opens nothing, and a candidate is self-delimiting. */
  predicate GoodPiece(q: Piece) {
    (q.Skipped? ==> !IsOpener(q.c)) && (q.Candidate? ==> SelfDelimiting(q.text))
  }

  /** Every piece the loop produces from `start` is good. */
  ghost predicate GoodFrom(s: string, start: nat)
    requires start <= |s|
  {
    forall q :: q in SplitFrom(s, start).0 ==> GoodPiece(q)
  }

  lemma GoodPrepend(q: Piece, r: (seq<Piece>, nat))
    requires GoodPiece(q) && forall x :: x in r.0 ==> GoodPiece(x)
    ensures forall x :: x in Prepend(q, r).0 ==> GoodPiece(x)
  {
  }

  lemma {:induction false} GoodSkip(s: string, start: nat)
    requires start < |s| && !IsOpener(s[start])
    ensures GoodFrom(s, start)
    decreases |s| - start, 0
  {
    SplitPieces(s, start + 1);
    SplitSkip(s, start);
    GoodPrepend(Skipped(s[start]), SplitFrom(s, start + 1));
  }

  lemma {:induction false} GoodCandidate(s: string, start: nat, e: nat)
    requires start < |s| && IsOpener(s[start]) && Scan(s, start, START) == Some(e)
    ensures GoodFrom(s, start)
    decreases |s| - start, 0
  {
    SplitPieces(s, e + 1);
    SplitCandidate(s, start, e);
    ScanWindow(s, start, e + 1, start, START);
    var t := s[start..e + 1];
    assert t[0] == s[start];
    assert SelfDelimiting(t);
    GoodPrepend(Candidate(t), SplitFrom(s, e + 1));
  }

  lemma GoodStop(s: string, start: nat)
    requires start <= |s|
    requires start == |s| || (IsOpener(s[start]) && Scan(s, start, START).None?)
    ensures GoodFrom(s, start)
  {
    assert SplitFrom(s, start) == ([], start);
  }

  /** No skipped character is an opening bracket, and every candidate is self-delimiting. */
  lemma {:induction false} SplitPieces(s: string, start: nat)
    requires start <= |s|
    ensures GoodFrom(s, start)
    decreases |s| - start, 1
  {
    if start < |s| && !IsOpener(s[start]) {
      GoodSkip(s, start);
    } else if start < |s| && Scan(s, start, START).Some? {
      GoodCandidate(s, start, Scan(s, start, START).value);
    } else {
      GoodStop(s, start);
    }
  }

  // ---------------------------------------------------------------------------
  // Split delivery

  lemma SplitSkip(s: string, start: nat)
    requires start < |s| && !IsOpener(s[start])
    ensures SplitFrom(s, start) == Prepend(Skipped(s[start]), SplitFrom(s, start + 1))
  {
  }

  lemma SplitCandidate(s: string, start: nat, e: nat)
    requires start < |s| && IsOpener(s[start]) && Scan(s, start, START) == Some(e)
    ensures SplitFrom(s, start) == Prepend(Candidate(s[start..e + 1]), SplitFrom(s, e + 1))
  {
  }

  /** Text appended after the end of a finished scan does not change it. */
  lemma {:induction false} ScanExtend(s: string, t: string, i: nat, st: ScanState)
    requires i <= |s| && Scan(s, i, st).Some?
    ensures Scan(s + t, i, st) == Scan(s, i, st)
    decreases |s| - i
  {
    assert (s + t)[i] == s[i];
    if !Closes(st, s[i]) {
      ScanExtend(s, t, i + 1, Next(st, s[i]));
    }
  }

  /** Text placed in front of a scan shifts where it ends and changes nothing else. */
  lemma {:induction false} ScanDrop(p: string, d: string, j: nat, st: ScanState)
    requires j <= |d|
    ensures Scan(p + d, |p| + j, st).None? <==> Scan(d, j, st).None?
    ensures Scan(d, j, st).Some? ==> Scan(p + d, |p| + j, st).value == |p| + Scan(d, j, st).value
    decreases |d| - j
  {
    if j < |d| {
      assert (p + d)[|p| + j] == d[j];
      if !Closes(st, d[j]) {
        ScanDrop(p, d, j + 1, Next(st, d[j]));
      }
    }
  }

  /** With the prefix `p` in front, the loop from `|p| + j` produces the same pieces as from `j` and stops `|p|` later. */
  ghost predicate DropShifts(p: string, d: string, j: nat)
    requires j <= |d|
  {
    SplitFrom(p + d, |p| + j).0 == SplitFrom(d, j).0 && SplitFrom(p + d, |p| + j).1 == |p| + SplitFrom(d, j).1
  }

  lemma {:induction false} DropSkip(p: string, d: string, j: nat)
    requires j < |d| && !IsOpener(d[j])
    ensures DropShifts(p, d, j)
    decreases |d| - j, 0
  {
    SplitDrop(p, d, j + 1);
    assert (p + d)[|p| + j] == d[j];
    SplitSkip(d, j);
    SplitSkip(p + d, |p| + j);
  }

  lemma SliceDrop(p: string, d: string, a: nat, b: nat)
    requires a <= b <= |d|
    ensures (p + d)[|p| + a..|p| + b] == d[a..b]
  {
  }

  lemma ShiftPrepend(q: Piece, rs: (seq<Piece>, nat), rd: (seq<Piece>, nat), n: nat)
    requires rs.0 == rd.0 && rs.1 == n + rd.1
    ensures Prepend(q, rs).0 == Prepend(q, rd).0 && Prepend(q, rs).1 == n + Prepend(q, rd).1
  {
  }

  lemma {:induction false} DropCandidate(p: string, d: string, j: nat, e: nat)
    requires j < |d| && IsOpener(d[j]) && Scan(d, j, START) == Some(e)
    ensures DropShifts(p, d, j)
    decreases |d| - j, 0
  {
    var pd := p + d;
    var q := Candidate(d[j..e + 1]);
    SplitCandidate(d, j, e);
    ScanDrop(p, d, j, START);
    assert pd[|p| + j] == d[j];
    SliceDrop(p, d, j, e + 1);
    SplitCandidate(pd, |p| + j, |p| + e);
    SplitDrop(p, d, e + 1);
    ShiftPrepend(q, SplitFrom(pd, |p| + e + 1), SplitFrom(d, e + 1), |p|);
  }

  lemma DropStop(p: string, d: string, j: nat)
    requires j <= |d|
    requires j == |d| || (IsOpener(d[j]) && Scan(d, j, START).None?)
    ensures DropShifts(p, d, j)
  {
    if j < |d| {
      ScanDrop(p, d, j, START);
      assert (p + d)[|p| + j] == d[j];
    }
    assert SplitFrom(d, j) == ([], j);
    assert SplitFrom(p + d, |p| + j) == ([], |p| + j);
  }

  /** A prefix in front of the loop's start leaves its pieces unchanged and shifts where it stops. */
  lemma {:induction false} SplitDrop(p: string, d: string, j: nat)
    requires j <= |d|
    ensures DropShifts(p, d, j)
    decreases |d| - j, 1
  {
    if j < |d| && !IsOpener(d[j]) {
      DropSkip(p, d, j);
    } else if j < |d| && Scan(d, j, START).Some? {
      DropCandidate(p, d, j, Scan(d, j, START).value);
    } else {
      DropStop(p, d, j);
    }
  }

  /** With `t` appended, the loop from `start` produces the pieces it produced before, then goes on from where it stopped. */
  ghost predicate Extends(s: string, t: string, start: nat)
    requires start <= |s|
  {
    var r := SplitFrom(s, start);
    SplitFrom(s + t, start).0 == r.0 + SplitFrom(s + t, r.1).0 &&
    SplitFrom(s + t, start).1 == SplitFrom(s + t, r.1).1
  }

  lemma PiecesAssoc(q: Piece, p: seq<Piece>, rest: seq<Piece>)
    ensures [q] + (p + rest) == ([q] + p) + rest
  {
  }

  lemma {:induction false} ExtendSkip(s: string, t: string, start: nat)
    requires start < |s| && !IsOpener(s[start])
    ensures Extends(s, t, start)
    decreases |s| - start, 0
  {
    var st := s + t;
    assert st[start] == s[start];
    SplitExtend(s, t, start + 1);
    SplitSkip(s, start);
    SplitSkip(st, start);
    var r := SplitFrom(s, start + 1);
    PiecesAssoc(Skipped(s[start]), r.0, SplitFrom(st, r.1).0);
  }

  lemma {:induction false} ExtendCandidate(s: string, t: string, start: nat, e: nat)
    requires start < |s| && IsOpener(s[start]) && Scan(s, start, START) == Some(e)
    ensures Extends(s, t, start)
    decreases |s| - start, 0
  {
    var st := s + t;
    assert st[start] == s[start];
    ScanExtend(s, t, start, START);
    assert st[start..e + 1] == s[start..e + 1];
    SplitExtend(s, t, e + 1);
    SplitCandidate(s, start, e);
    SplitCandidate(st, start, e);
    var r := SplitFrom(s, e + 1);
    PiecesAssoc(Candidate(s[start..e + 1]), r.0, SplitFrom(st, r.1).0);
  }

  lemma ExtendStop(s: string, t: string, start: nat)
    requires start <= |s|
    requires start == |s| || (IsOpener(s[start]) && Scan(s, start, START).None?)
    ensures Extends(s, t, start)
  {
    assert SplitFrom(s, start) == ([], start);
    assert [] + SplitFrom(s + t, start).0 == SplitFrom(s + t, start).0;
  }

  /** Text appended after where the loop stopped does not change the pieces before that point. */
  lemma {:induction false} SplitExtend(s: string, t: string, start: nat)
    requires start <= |s|
    ensures Extends(s, t, start)
    decreases |s| - start, 1
  {
    if start < |s| && !IsOpener(s[start]) {
      ExtendSkip(s, t, start);
    } else if start < |s| && Scan(s, start, START).Some? {
      ExtendCandidate(s, t, start, Scan(s, start, START).value);
    } else {
      ExtendStop(s, t, start);
    }
  }

  lemma {:induction false} CandidatesAppend(p: seq<Piece>, q: seq<Piece>)
    ensures Candidates(p + q) == Candidates(p) + Candidates(q)
  {
    if |p| == 0 {
      assert p + q == q;
    } else {
      var pq := p + q;
      assert pq[0] == p[0] && pq[1..] == p[1..] + q;
      CandidatesAppend(p[1..], q);
      assert Candidates(pq) == Own(p[0]) + Candidates(p[1..] + q);
      assert Own(p[0]) + (Candidates(p[1..]) + Candidates(q)) == (Own(p[0]) + Candidates(p[1..])) + Candidates(q);
    }
  }

  /**
   * A stream cut into two messages yields the same candidates, and leaves
   * the same text waiting, as the stream in one message, as long as what
   * waits after the first message is within 10000 characters.
   */
  lemma SplitDelivery(a: string, b: string)
    requires |a| - SplitFrom(a, 0).1 <= MAX_BUFFER
    ensures Candidates(SplitFrom(a, 0).0) + Candidates(SplitFrom(Leftover(a) + b, 0).0) == Candidates(SplitFrom(a + b, 0).0)
    ensures var r := Leftover(a) + b; r[SplitFrom(r, 0).1..] == (a + b)[SplitFrom(a + b, 0).1..]
  {
    var k := SplitFrom(a, 0).1;
    var r := a[k..] + b;
    assert Leftover(a) + b == r;
    DeliveryShift(a, b);
    CandidatesAppend(SplitFrom(a, 0).0, SplitFrom(r, 0).0);
    assert a + b == a[..k] + r;
    SuffixOfConcat(a[..k], r, SplitFrom(r, 0).1);
  }

  /** The loop over the whole stream is the loop over the first message up to where it stopped, then the loop over the rest. */
  lemma DeliveryShift(a: string, b: string)
    ensures var k := SplitFrom(a, 0).1; var r := a[k..] + b;
      SplitFrom(a + b, 0).0 == SplitFrom(a, 0).0 + SplitFrom(r, 0).0 &&
      SplitFrom(a + b, 0).1 == k + SplitFrom(r, 0).1
  {
    var k := SplitFrom(a, 0).1;
    var p := a[..k];
    var r := a[k..] + b;
    assert a + b == p + r && |p| == k by {
      assert a == p + a[k..];
    }
    SplitExtend(a, b, 0);
    SplitDrop(p, r, 0);
  }

  lemma SuffixOfConcat(p: string, r: string, i: nat)
    requires i <= |r|
    ensures (p + r)[|p| + i..] == r[i..]
  {
  }

  // ---------------------------------------------------------------------------
  // The worker's message buffer

  /** The outer loop has reached `j` in `s` with `done` handed over: the rest of the loop hands over the remaining candidates and stops where the whole loop stops. */
  ghost predicate Progress(s: string, j: nat, done: seq<string>) {
    j <= |s| && SplitFrom(s, j).1 == SplitFrom(s, 0).1 &&
    done + Candidates(SplitFrom(s, j).0) == Candidates(SplitFrom(s, 0).0)
  }

  /** Skipping a character that opens nothing keeps the loop's progress. */
  lemma ProgressSkip(s: string, j: nat, done: seq<string>)
    requires Progress(s, j, done) && j < |s| && !IsOpener(s[j])
    ensures Progress(s, j + 1, done)
  {
    SplitSkip(s, j);
  }

  /** Handing over a complete object keeps the loop's progress. */
  lemma ProgressCandidate(s: string, j: nat, e: nat, done: seq<string>)
    requires Progress(s, j, done) && j < |s| && IsOpener(s[j]) && Scan(s, j, START) == Some(e)
    ensures Progress(s, e + 1, done + [s[j..e + 1]])
  {
    SplitCandidate(s, j, e);
    var rest := Candidates(SplitFrom(s, e + 1).0);
    assert Candidates([Candidate(s[j..e + 1])] + SplitFrom(s, e + 1).0) == [s[j..e + 1]] + rest;
    assert (done + [s[j..e + 1]]) + rest == done + ([s[j..e + 1]] + rest);
  }

  /** Where the loop stops, everything has been handed over. */
  lemma ProgressEnd(s: string, j: nat, done: seq<string>)
    requires Progress(s, j, done)
    requires j == |s| || (IsOpener(s[j]) && Scan(s, j, START).None?)
    ensures done == Candidates(SplitFrom(s, 0).0) && SplitFrom(s, 0).1 == j
  {
    assert SplitFrom(s, j) == ([], j);
    assert done + [] == done;
  }

  class MessageBuffer {
    var buffer: string

    constructor ()
      ensures buffer == []
    {
      buffer := [];
    }

    /**
     * `socket.onmessage`: appends the message to the buffer, hands every
     * complete object to `JSON.parse` (returned here in order, whether it
     * parses or not) and keeps the rest for the next message.
     */
    method OnMessage(data: string) returns (candidates: seq<string>)
      modifies this
      ensures candidates == Candidates(SplitFrom(old(buffer) + data, 0).0)
      ensures buffer == Leftover(old(buffer) + data)
    {
      buffer := buffer + data;
      ghost var whole := buffer;
      var jsonStartIndex: nat := 0;
      candidates := [];
      assert [] + Candidates(SplitFrom(buffer, 0).0) == Candidates(SplitFrom(buffer, 0).0);
      while jsonStartIndex < |buffer|
        invariant buffer == whole
        invariant Progress(buffer, jsonStartIndex, candidates)
        decreases |buffer| - jsonStartIndex
      {
        if !IsOpener(buffer[jsonStartIndex]) {
          ProgressSkip(buffer, jsonStartIndex, candidates);
          jsonStartIndex := jsonStartIndex + 1;
          continue;
        }
        var jsonEndIndex := FindEnd(buffer, jsonStartIndex);
        if jsonEndIndex != -1 {
          ProgressCandidate(buffer, jsonStartIndex, jsonEndIndex, candidates);
          candidates := candidates + [buffer[jsonStartIndex..jsonEndIndex + 1]];
          jsonStartIndex := jsonEndIndex + 1;
        } else {
          break;
        }
      }
      ProgressEnd(buffer, jsonStartIndex, candidates);
      buffer := buffer[jsonStartIndex..];
      if |buffer| > MAX_BUFFER {
        buffer := [];
      }
    }
  }

  /** The inner `for` loop: the index where the object starting at `start` ends, or -1. */
  method FindEnd(s: string, start: nat) returns (jsonEndIndex: int)
    requires start < |s|
    ensures jsonEndIndex == -1 <==> Scan(s, start, START).None?
    ensures jsonEndIndex != -1 ==> jsonEndIndex == Scan(s, start, START).value
  {
    var braceCount := 0;
    var inString := false;
    var escapeNext := false;
    jsonEndIndex := -1;
    var i := start;
    while i < |s|
      invariant start <= i <= |s|
      invariant Scan(s, start, START) == Scan(s, i, ScanState(braceCount, inString, escapeNext))
      decreases |s| - i
    {
      ghost var before := ScanState(braceCount, inString, escapeNext);
      var c := s[i];
      if c == '"' && !escapeNext {
        inString := !inString;
      }
      if c == '\\' && inString {
        escapeNext := !escapeNext;
      } else {
        escapeNext := false;
      }
      if !inString {
        if IsOpener(c) {
          braceCount := braceCount + 1;
        } else if IsCloser(c) {
          braceCount := braceCount - 1;
          if braceCount == 0 {
            jsonEndIndex := i;
            return;
          }
        }
      }
      assert ScanState(braceCount, inString, escapeNext) == Next(before, c);
      i := i + 1;
    }
  }
}
