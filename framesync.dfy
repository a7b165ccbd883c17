/**
 * The frame synchroniser of the serial reader: bytes arrive in chunks of any
 * size, possibly preceded or interleaved with text and noise, and are cut
 * into frames by searching for the magic bytes B2 A1, reading the type byte
 * to learn the frame size, waiting while a frame is incomplete and decoding
 * it once it is whole. A counter of invalid frames, kept for the lifetime of
 * the connection, clears the buffer once it exceeds 10.
 */
module FrameSync {
  import opened Wrappers
  import opened Bytes
  import opened Json
  import opened Codec

  const MAX_INVALID: nat := 10
  const MAX_NOISE: nat := 256

  /** The magic marker starts at index `j`. */
  predicate MagicAt(s: seq<byte>, j: int) {
    0 <= j && j + 1 < |s| && s[j] == 0xB2 && s[j + 1] == 0xA1
  }

  /** `buf.find(b'\xB2\xA1')`: the first index of the marker, or -1. */
  function FindMagic(s: seq<byte>): (r: int)
    ensures r == -1 || MagicAt(s, r)
    ensures forall j :: 0 <= j < |s| && (r == -1 || j < r) ==> !MagicAt(s, j)
  {
    if |s| < 2 then -1
    else if s[0] == 0xB2 && s[1] == 0xA1 then 0
    else
      var k := FindMagic(s[1..]);
      assert forall j :: 1 <= j < |s| ==> (MagicAt(s, j) <==> MagicAt(s[1..], j - 1));
      if k < 0 then -1 else k + 1
  }

  /** `size_map.get(pkt_type)`. */
  function FrameSize(t: byte): (r: Option<nat>)
    ensures r.Some? ==> 8 <= r.value <= 64
  {
    if t == TYPE_DATA then Some(SIZE_DATA)
    else if t == TYPE_CONFIG then Some(SIZE_CONFIG)
    else if t == TYPE_STATUS then Some(SIZE_STATUS)
    else None
  }

  /** The type of the `parsers` table: a frame type and a whole frame to the decoded dict, or None. */
  type Parsers = (byte, seq<byte>) -> Option<JValue>

  /** `parsers.get(pkt_type)(packet)` with the table of the serial reader. */
  function DecodeFrame(t: byte, packet: seq<byte>): Option<JValue> {
    if t == TYPE_DATA then DecodeData(packet)
    else if t == TYPE_CONFIG then DecodeConfig(packet)
    else if t == TYPE_STATUS then DecodeStatus(packet)
    else None
  }

  datatype SyncState = SyncState(buf: seq<byte>, invalid: nat)

  /** Counts one more invalid frame; past the limit the buffer is cleared and the count restarts. */
  function Invalid(buf: seq<byte>, invalid: nat): (st: SyncState)
    ensures invalid <= MAX_INVALID ==> st.invalid <= MAX_INVALID
    ensures st.buf == buf || st == SyncState([], 0)
  {
    if invalid + 1 > MAX_INVALID then SyncState([], 0) else SyncState(buf, invalid + 1)
  }

  /** What one pass of the loop does: stop (with the state it leaves) or go on, possibly with an event. */
  datatype StepResult =
    | Stop(st: SyncState)
    | Continue(st: SyncState, event: Option<JValue>)

  /** One pass of `while len(buf) >= 8`, decoding whole frames with `parsers`. */
  function Step(st: SyncState, parsers: Parsers): (r: StepResult)
    requires |st.buf| >= 8
    ensures r.Continue? ==> |r.st.buf| < |st.buf|
    ensures |r.st.buf| <= |st.buf|
    ensures r.Continue? && r.event.Some? ==> |r.st.buf| + 8 <= |st.buf|
  {
    var idx := FindMagic(st.buf);
    if idx < 0 then
      Stop(SyncState(if |st.buf| > MAX_NOISE then st.buf[|st.buf| - MAX_NOISE..] else st.buf, st.invalid))
    else
      var b := st.buf[idx..];
      if |b| < 4 then Stop(SyncState(b, st.invalid))
      else match FrameSize(b[3])
        case None => Continue(Invalid(b[1..], st.invalid), None)
        case Some(size) =>
          if |b| < size then Stop(SyncState(b, st.invalid))
          else match parsers(b[3], b[..size])
            case Some(e) => Continue(SyncState(b[size..], 0), Some(e))
            case None => Continue(Invalid(b[size..], st.invalid), None)
  }

  function OptSeq(e: Option<JValue>): seq<JValue> {
    if e.Some? then [e.value] else []
  }

  /** The whole loop: the state it leaves and the events it emits, in stream order. */
  function Drain(st: SyncState, parsers: Parsers): (r: (SyncState, seq<JValue>))
    ensures |r.0.buf| + 8 * |r.1| <= |st.buf|
    decreases |st.buf|
  {
    if |st.buf| < 8 then (st, [])
    else match Step(st, parsers)
      case Stop(st') => (st', [])
      case Continue(st', e) =>
        var (final, events) := Drain(st', parsers);
        (final, OptSeq(e) + events)
  }

  // ---------------------------------------------------------------------------
  // Properties of the loop

  /** A buffer shorter than a header is left as it is. */
  lemma DrainShort(st: SyncState, parsers: Parsers)
    requires |st.buf| < 8
    ensures Drain(st, parsers) == (st, [])
  {
  }

  /** A pass that stops ends the loop in the state it leaves. */
  lemma DrainAfterStop(st: SyncState, next: SyncState, parsers: Parsers)
    requires |st.buf| >= 8 && Step(st, parsers) == Stop(next)
    ensures Drain(st, parsers) == (next, [])
  {
  }

  /** A pass that goes on emits its event ahead of the rest of the loop's. */
  lemma DrainAfterPass(st: SyncState, next: SyncState, e: Option<JValue>, parsers: Parsers)
    requires |st.buf| >= 8 && Step(st, parsers) == Continue(next, e)
    ensures Drain(st, parsers) == (Drain(next, parsers).0, OptSeq(e) + Drain(next, parsers).1)
  {
  }

  /** What is left to do after `done` has been emitted: the loop from `st` ends in `final`. */
  ghost predicate Remaining(st: SyncState, done: seq<JValue>, final: (SyncState, seq<JValue>), parsers: Parsers) {
    Drain(st, parsers).0 == final.0 && done + Drain(st, parsers).1 == final.1
  }

  /** A pass that goes on keeps what is left to do, with its event emitted. */
  lemma RemainingAfterPass(st: SyncState, next: SyncState, e: Option<JValue>, done: seq<JValue>,
                           final: (SyncState, seq<JValue>), parsers: Parsers)
    requires |st.buf| >= 8 && Step(st, parsers) == Continue(next, e)
    requires Remaining(st, done, final, parsers)
    ensures Remaining(next, done + OptSeq(e), final, parsers)
  {
    DrainAfterPass(st, next, e, parsers);
    AppendAssoc(done, OptSeq(e), Drain(next, parsers).1);
  }

  lemma AppendAssoc(a: seq<JValue>, b: seq<JValue>, c: seq<JValue>)
    ensures (a + b) + c == a + (b + c)
  {
  }

  /** A pass that stops has reached the end of the loop. */
  lemma RemainingAfterStop(st: SyncState, next: SyncState, done: seq<JValue>,
                           final: (SyncState, seq<JValue>), parsers: Parsers)
    requires |st.buf| >= 8 && Step(st, parsers) == Stop(next)
    requires Remaining(st, done, final, parsers)
    ensures (next, done) == final
  {
    DrainAfterStop(st, next, parsers);
    assert done + [] == done;
  }

  /** A buffer shorter than a header has reached the end of the loop. */
  lemma RemainingShort(st: SyncState, done: seq<JValue>, final: (SyncState, seq<JValue>), parsers: Parsers)
    requires |st.buf| < 8
    requires Remaining(st, done, final, parsers)
    ensures (st, done) == final
  {
    DrainShort(st, parsers);
    assert done + [] == done;
  }

  /** The loop leaves at most 256 bytes buffered and keeps the counter within its limit. */
  lemma {:induction false} DrainBounds(st: SyncState, parsers: Parsers)
    requires st.invalid <= MAX_INVALID
    ensures |st.buf| <= MAX_NOISE ==> |Drain(st, parsers).0.buf| <= MAX_NOISE
    ensures |st.buf| >= 8 ==> |Drain(st, parsers).0.buf| <= MAX_NOISE
    ensures Drain(st, parsers).0.invalid <= MAX_INVALID
    decreases |st.buf|
  {
    if |st.buf| >= 8 {
      match Step(st, parsers)
      case Stop(_) =>
      case Continue(st', _) =>
        DrainBounds(st', parsers);
    }
  }

  /** `b` is a suffix of `s`. */
  predicate SuffixOf(b: seq<byte>, s: seq<byte>) {
    |b| <= |s| && b == s[|s| - |b|..]
  }

  lemma SuffixTrans(a: seq<byte>, b: seq<byte>, c: seq<byte>)
    requires SuffixOf(a, b) && SuffixOf(b, c)
    ensures SuffixOf(a, c)
  {
    assert c[|c| - |b|..][|b| - |a|..] == c[|c| - |a|..];
  }

  /** One pass only removes bytes from the front. */
  lemma StepSuffix(st: SyncState, parsers: Parsers)
    requires |st.buf| >= 8
    ensures SuffixOf(Step(st, parsers).st.buf, st.buf)
  {
    var idx := FindMagic(st.buf);
    if idx >= 0 {
      var b := st.buf[idx..];
      assert SuffixOf(b, st.buf);
      if |b| >= 4 && FrameSize(b[3]).Some? && |b| >= FrameSize(b[3]).value {
        var size := FrameSize(b[3]).value;
        assert SuffixOf(b[size..], b);
        SuffixTrans(b[size..], b, st.buf);
      } else if |b| >= 4 && FrameSize(b[3]).None? {
        assert SuffixOf(b[1..], b);
        SuffixTrans(b[1..], b, st.buf);
      }
    }
  }

  /** The loop only ever removes bytes from the front of the buffer. */
  lemma {:induction false} DrainSuffix(st: SyncState, parsers: Parsers)
    ensures SuffixOf(Drain(st, parsers).0.buf, st.buf)
    decreases |st.buf|
  {
    if |st.buf| >= 8 {
      StepSuffix(st, parsers);
      match Step(st, parsers)
      case Stop(_) =>
      case Continue(st', _) =>
        DrainSuffix(st', parsers);
        SuffixTrans(Drain(st', parsers).0.buf, st'.buf, st.buf);
    }
  }

  /** The state between chunks: the loop has nothing left to do and the bounds hold. */
  ghost predicate Settled(st: SyncState, parsers: Parsers) {
    Drain(st, parsers) == (st, []) && st.invalid <= MAX_INVALID && |st.buf| <= MAX_NOISE
  }

  /** A pass that stops leaves a state on which the next pass stops at once, in the same state. */
  lemma StopIsQuiescent(st: SyncState, parsers: Parsers)
    requires |st.buf| >= 8 && Step(st, parsers).Stop? && |Step(st, parsers).st.buf| >= 8
    ensures Step(Step(st, parsers).st, parsers) == Step(st, parsers)
  {
    var st' := Step(st, parsers).st;
    var idx := FindMagic(st.buf);
    if idx < 0 {
      var b := st'.buf;
      assert forall j :: 0 <= j < |b| ==> (MagicAt(b, j) <==> MagicAt(st.buf, j + |st.buf| - |b|));
      assert FindMagic(b) == -1;
    } else {
      assert MagicAt(st'.buf, 0);
    }
  }

  /** Once the loop has stopped, running it again changes nothing and emits nothing. */
  lemma {:induction false} DrainQuiescent(st: SyncState, parsers: Parsers)
    ensures Drain(Drain(st, parsers).0, parsers) == (Drain(st, parsers).0, [])
    decreases |st.buf|
  {
    if |st.buf| >= 8 {
      match Step(st, parsers)
      case Stop(st') =>
        if |st'.buf| >= 8 {
          StopIsQuiescent(st, parsers);
        }
      case Continue(st', _) =>
        DrainQuiescent(st', parsers);
    }
  }

  /** Wherever the loop starts (within the counter's limit), it ends settled. */
  lemma DrainSettles(st: SyncState, parsers: Parsers)
    requires st.invalid <= MAX_INVALID
    ensures Settled(Drain(st, parsers).0, parsers)
  {
    DrainBounds(st, parsers);
    DrainQuiescent(st, parsers);
  }

  /** A frame taken as one whole: it starts with the marker, its type is known, its size is right and it decodes. */
  predicate GoodFrame(f: seq<byte>, parsers: Parsers) {
    MagicAt(f, 0) && |f| >= 4 && FrameSize(f[3]) == Some(|f|) && parsers(f[3], f).Some?
  }

  /** With the reader's own table, a whole frame of a known type that decodes is a good frame. */
  lemma DecodedFrameIsGood(f: seq<byte>)
    requires |f| >= 4 && FrameSize(f[3]) == Some(|f|) && DecodeFrame(f[3], f).Some?
    ensures GoodFrame(f, DecodeFrame)
  {
    MagicBytes(f);
  }

  /** Every DATA frame the device sends is a good frame, whatever its fields. */
  lemma DataFrameIsGood(tMs: u32, forceBits: u32, status: byte, pad: byte)
    ensures GoodFrame(DataFrame(tMs, forceBits, status, pad), DecodeFrame)
  {
    var f := DataFrame(tMs, forceBits, status, pad);
    DataRoundTrip(tMs, forceBits, status, pad);
    assert f[..4] == Header(TYPE_DATA);
    DecodedFrameIsGood(f);
  }

  /** A good frame at the front of the buffer is cut off, decoded and emitted, and the counter resets. */
  lemma StepGoodFrame(f: seq<byte>, rest: seq<byte>, invalid: nat, parsers: Parsers)
    requires GoodFrame(f, parsers)
    ensures |f + rest| >= 8
    ensures Step(SyncState(f + rest, invalid), parsers) == Continue(SyncState(rest, 0), parsers(f[3], f))
  {
    var b := f + rest;
    assert MagicAt(b, 0);
    assert b[0..] == b;
    assert b[..|f|] == f && b[|f|..] == rest;
  }

  /**
   * A whole frame of a known type that its parser rejects is cut off all
   * at once, emits nothing and costs one count.
   */
  lemma StepRejectedFrame(f: seq<byte>, rest: seq<byte>, invalid: nat, parsers: Parsers)
    requires MagicAt(f, 0) && |f| >= 4 && FrameSize(f[3]) == Some(|f|) && parsers(f[3], f).None?
    ensures |f + rest| >= 8
    ensures Step(SyncState(f + rest, invalid), parsers) == Continue(Invalid(rest, invalid), None)
  {
    var b := f + rest;
    assert MagicAt(b, 0);
    assert b[0..] == b;
    assert b[..|f|] == f && b[|f|..] == rest;
  }

  /** A DATA frame whose CRC does not match is dropped whole by the reader's own table. */
  lemma CorruptDataFrameDropped(f: seq<byte>, rest: seq<byte>, invalid: nat)
    requires |f| == SIZE_DATA && f[..4] == Header(TYPE_DATA) && !CrcOk(f)
    ensures Step(SyncState(f + rest, invalid), DecodeFrame) == Continue(Invalid(rest, invalid), None)
  {
    assert f[0] == 0xB2 && f[1] == 0xA1 && f[3] == TYPE_DATA by {
      assert f[..4][0] == f[0] && f[..4][1] == f[1] && f[..4][3] == f[3];
    }
    StepRejectedFrame(f, rest, invalid, DecodeFrame);
  }

  /** The concatenation of a list of frames. */
  function Concat(frames: seq<seq<byte>>): seq<byte> {
    if |frames| == 0 then [] else frames[0] + Concat(frames[1..])
  }

  /** The events a list of good frames decodes to, in order. */
  function Events(frames: seq<seq<byte>>, parsers: Parsers): seq<JValue>
    requires forall i :: 0 <= i < |frames| ==> GoodFrame(frames[i], parsers)
  {
    if |frames| == 0 then []
    else
      assert GoodFrame(frames[0], parsers);
      [parsers(frames[0][3], frames[0]).value] + Events(frames[1..], parsers)
  }

  /**
   * A stream of good frames, after noise that holds no marker of its own,
   * yields exactly the frames' events in stream order, leaves nothing
   * buffered and the counter at 0.
   */
  lemma {:induction false} DrainNoiseThenFrames(noise: seq<byte>, frames: seq<seq<byte>>, invalid: nat, parsers: Parsers)
    requires forall j :: 0 <= j < |noise| ==> !MagicAt(noise, j)
    requires |frames| > 0
    requires forall i :: 0 <= i < |frames| ==> GoodFrame(frames[i], parsers)
    ensures Drain(SyncState(noise + Concat(frames), invalid), parsers) == (SyncState([], 0), Events(frames, parsers))
    decreases |frames|
  {
    var f := frames[0];
    assert GoodFrame(f, parsers);
    var rest := Concat(frames[1..]);
    var s := noise + Concat(frames);
    assert s == noise + (f + rest);
    assert MagicAt(s, |noise|);
    forall j | 0 <= j < |noise|
      ensures !MagicAt(s, j)
    {
      if j + 1 < |noise| {
        assert !MagicAt(noise, j);
      }
    }
    assert FindMagic(s) == |noise|;
    assert s[|noise|..] == f + rest;
    StepGoodFrame(f, rest, invalid, parsers);
    var next := Step(SyncState(s, invalid), parsers);
    assert next == Continue(SyncState(rest, 0), parsers(f[3], f));
    DrainAfterPass(SyncState(s, invalid), SyncState(rest, 0), parsers(f[3], f), parsers);
    if |frames| == 1 {
      assert rest == [];
    } else {
      DrainNoiseThenFrames([], frames[1..], 0, parsers);
      assert [] + rest == rest;
    }
  }

  /** An incomplete frame is kept whole and nothing is emitted until the rest arrives. */
  lemma PartialFrameWaits(f: seq<byte>, k: nat, invalid: nat, parsers: Parsers)
    requires GoodFrame(f, parsers) && k < |f|
    ensures Drain(SyncState(f[..k], invalid), parsers) == (SyncState(f[..k], invalid), [])
  {
    var p := f[..k];
    if |p| >= 8 {
      assert MagicAt(p, 0);
      assert p[0..] == p;
    }
  }

  /** A marker followed by a type byte that no frame has costs exactly one byte and one count. */
  lemma UnknownTypeDropsOneByte(st: SyncState, parsers: Parsers)
    requires |st.buf| >= 8 && MagicAt(st.buf, 0) && FrameSize(st.buf[3]).None?
    ensures Step(st, parsers) == Continue(Invalid(st.buf[1..], st.invalid), None)
  {
    assert st.buf[0..] == st.buf;
  }

  /** Without a marker anywhere, the loop keeps exactly the last 256 bytes (or all of a shorter buffer) and emits nothing. */
  lemma NoMarkerKeepsTail(st: SyncState, parsers: Parsers)
    requires |st.buf| >= 8 && forall j :: 0 <= j < |st.buf| ==> !MagicAt(st.buf, j)
    ensures Drain(st, parsers) ==
      (SyncState(if |st.buf| > MAX_NOISE then st.buf[|st.buf| - MAX_NOISE..] else st.buf, st.invalid), [])
  {
  }

  // ---------------------------------------------------------------------------
  // The reader's buffer

  /** The buffer and the invalid-frame counter of one serial connection. */
  class Synchronizer {
    var buf: seq<byte>
    var invalid: nat
    const parsers: Parsers

    /** The state between chunks: the loop has run to its end and the counter is within its limit. */
    ghost predicate Valid()
      reads this
    {
      Settled(SyncState(buf, invalid), parsers)
    }

    /** A new connection starts with an empty buffer, a zero count and the reader's parser table. */
    constructor ()
      ensures Valid() && buf == [] && invalid == 0 && parsers == DecodeFrame
    {
      buf := [];
      invalid := 0;
      parsers := DecodeFrame;
    }

    /**
     * One pass of the loop on the buffer: drops the bytes before the first
     * marker, then drops one byte of an unknown frame type or cuts off and
     * decodes a whole frame. `stop` says the pass ended the loop.
     */
    method Pass() returns (stop: bool, obj: Option<JValue>)
      requires |buf| >= 8
      modifies this
      ensures stop ==> Step(SyncState(old(buf), old(invalid)), parsers) == Stop(SyncState(buf, invalid))
      ensures !stop ==> Step(SyncState(old(buf), old(invalid)), parsers) == Continue(SyncState(buf, invalid), obj)
    {
      var magicIdx := FindMagic(buf);
      if magicIdx == -1 {
        if |buf| > MAX_NOISE {
          buf := buf[|buf| - MAX_NOISE..];
        }
        return true, None;
      }
      buf := buf[magicIdx..];
      if |buf| < 4 {
        return true, None;
      }
      var pktType := buf[3];
      var expectedSize := FrameSize(pktType);
      if expectedSize.None? {
        buf := buf[1..];
        invalid := invalid + 1;
        if invalid > MAX_INVALID {
          buf := [];
          invalid := 0;
        }
        return false, None;
      }
      if |buf| < expectedSize.value {
        return true, None;
      }
      var packet := buf[..expectedSize.value];
      buf := buf[expectedSize.value..];
      obj := parsers(pktType, packet);
      if obj.Some? {
        invalid := 0;
      } else {
        invalid := invalid + 1;
        if invalid > MAX_INVALID {
          buf := [];
          invalid := 0;
        }
      }
      stop := false;
    }

    /**
     * Appends a chunk read from the port and runs the loop, returning the
     * decoded frames in stream order; an empty chunk is skipped.
     */
    method Feed(chunk: seq<byte>) returns (events: seq<JValue>)
      requires Valid()
      modifies this
      ensures Valid()
      ensures (SyncState(buf, invalid), events) == Drain(SyncState(old(buf) + chunk, old(invalid)), parsers)
    {
      if |chunk| == 0 {
        assert old(buf) + chunk == buf;
        events := [];
        return;
      }
      buf := buf + chunk;
      ghost var start := SyncState(buf, invalid);
      ghost var final := Drain(start, parsers);
      events := [];
      assert [] + final.1 == final.1;
      while |buf| >= 8
        invariant Remaining(SyncState(buf, invalid), events, final, parsers)
        decreases |buf|
      {
        ghost var here := SyncState(buf, invalid);
        var stop, obj := Pass();
        if stop {
          RemainingAfterStop(here, SyncState(buf, invalid), events, final, parsers);
          DrainSettles(start, parsers);
          return;
        }
        RemainingAfterPass(here, SyncState(buf, invalid), obj, events, final, parsers);
        events := events + OptSeq(obj);
      }
      RemainingShort(SyncState(buf, invalid), events, final, parsers);
      DrainSettles(start, parsers);
    }
  }
}
