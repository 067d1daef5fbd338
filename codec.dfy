/**
 * The run-length nybble decoder as a state machine on values.
 *
 * A nybble 0..E is a literal pixel code.  An F announces a run: the next
 * nybble X stands for X + 3 zero codes.  Once 181 codes have been written the
 * image is unpacked onto the grid and the decoder reports completion.
 */
module Codec {
  import opened Types
  import opened Grid

  datatype Outcome = InProgress | Complete | Error

  /**
   * The decoder fields of a device: the write cursor, the run flag, the
   * linear buffer of codes and the unpacked image.
   */
  datatype DecoderState = DecoderState(bufIndex: int, runPending: bool, partial: seq<byte>, image: seq<byte>)

  /** The escape nybble that announces a run of zeros. */
  const RunEscape: byte := 15
  /** The shortest run one escape can stand for. */
  const MinRun: nat := 3

  predicate Wf(s: DecoderState) {
    0 <= s.bufIndex <= CodeCount && IsCodes(s.partial) && |s.image| == CellCount
  }

  /** The state right after a reset: everything zero. */
  function ResetState(): (s: DecoderState)
    ensures Wf(s) && s.bufIndex == 0 && !s.runPending
    ensures forall k | 0 <= k < CodeCount :: s.partial[k] == 0
    ensures forall k | 0 <= k < CellCount :: s.image[k] == 0
  {
    DecoderState(0, false, seq(CodeCount, _ => 0), seq(CellCount, _ => 0))
  }

  /** `p` with `len` zeros written from position `from` on. */
  function ZeroRun(p: seq<byte>, from: nat, len: nat): seq<byte>
    requires from + len <= |p|
  {
    seq(|p|, k requires 0 <= k < |p| => if from <= k < from + len then 0 else p[k])
  }

  /** The completion test that ends every successful step. */
  function CheckComplete(s: DecoderState): (DecoderState, Outcome)
    requires Wf(s)
  {
    if s.bufIndex == CodeCount then (s.(image := Unpack(s.partial)), Complete) else (s, InProgress)
  }

  /** One nybble fed to the decoder. */
  function Step(s: DecoderState, n: byte): (r: (DecoderState, Outcome))
    requires Wf(s) && s.bufIndex < CodeCount
    ensures Wf(r.0)
    // errors: an out-of-range nybble, or a run that would overflow the buffer; the state is untouched
    ensures r.1 == Error <==> n >= 16 || (s.runPending && s.bufIndex + n + MinRun > CodeCount)
    ensures r.1 == Error ==> r.0 == s
    // the cursor only moves forward, never past the end, and completion is reaching the end
    ensures s.bufIndex <= r.0.bufIndex <= CodeCount
    ensures r.1 == Complete <==> r.0.bufIndex == CodeCount
    ensures r.1 == Complete ==> r.0.image == Unpack(r.0.partial)
  {
    if n >= 16 then (s, Error)
    else if s.runPending then
      if s.bufIndex + n + MinRun > CodeCount then (s, Error)
      else
        CheckComplete(s.(bufIndex := s.bufIndex + n + MinRun, runPending := false,
                         partial := ZeroRun(s.partial, s.bufIndex, n + MinRun)))
    else if n == RunEscape then
      CheckComplete(s.(runPending := true))
    else
      CheckComplete(s.(bufIndex := s.bufIndex + 1, partial := s.partial[s.bufIndex := n]))
  }

  /**
   * The effect of one nybble on the buffer: a literal writes itself and
   * advances by one, an escape only raises the run flag, a run length X writes
   * X + 3 zeros and advances past them; nothing outside the written window
   * changes, and the image is only rebuilt on completion.
   */
  lemma StepEffect(s: DecoderState, n: byte)
    requires Wf(s) && s.bufIndex < CodeCount
    ensures var r := Step(s, n);
      && (forall k | 0 <= k < CodeCount && !(s.bufIndex <= k < r.0.bufIndex) :: r.0.partial[k] == s.partial[k])
      && (r.1 == InProgress ==> r.0.image == s.image)
      && (n < RunEscape && !s.runPending ==>
            r.0.bufIndex == s.bufIndex + 1 && r.0.partial[s.bufIndex] == n && !r.0.runPending)
      && (n == RunEscape && !s.runPending ==> r == (s.(runPending := true), InProgress))
      && (n < 16 && s.runPending && r.1 != Error ==>
            r.0.bufIndex == s.bufIndex + n + MinRun && !r.0.runPending &&
            forall k | s.bufIndex <= k < r.0.bufIndex :: r.0.partial[k] == 0)
  {
  }

  /** What feeding a stream of nybbles produced, and the nybbles left unread. */
  datatype FeedResult = FeedResult(state: DecoderState, outcome: Outcome, rest: seq<byte>)

  /** Feeds nybbles one at a time until the decoder completes or fails, or the stream ends. */
  function Feed(s: DecoderState, ns: seq<byte>): (r: FeedResult)
    requires Wf(s) && s.bufIndex < CodeCount
    ensures Wf(r.state)
    ensures s.bufIndex <= r.state.bufIndex
    ensures r.outcome == InProgress ==> r.state.bufIndex < CodeCount && r.rest == []
    ensures r.outcome == Complete ==> r.state.bufIndex == CodeCount && r.state.image == Unpack(r.state.partial)
    ensures r.outcome == Error ==> r.state.bufIndex < CodeCount
    ensures r.outcome != InProgress ==> |r.rest| < |ns| && r.rest == ns[|ns| - |r.rest|..]
    decreases |ns|
  {
    if ns == [] then FeedResult(s, InProgress, [])
    else
      var (s', o) := Step(s, ns[0]);
      if o == InProgress then Feed(s', ns[1..]) else FeedResult(s', o, ns[1..])
  }

  /** Feeding a stream in two pieces is feeding it whole, as long as the first piece does not end the image. */
  lemma {:induction false} FeedAppend(s: DecoderState, a: seq<byte>, b: seq<byte>)
    requires Wf(s) && s.bufIndex < CodeCount
    requires Feed(s, a).outcome == InProgress
    ensures Feed(s, a + b) == Feed(Feed(s, a).state, b)
    decreases |a|
  {
    if a != [] {
      assert (a + b)[0] == a[0] && (a + b)[1..] == a[1..] + b;
      FeedAppend(Step(s, a[0]).0, a[1..], b);
    } else {
      assert a + b == b;
    }
  }

  /** Once the decoder has completed or failed, nybbles fed after it are left unread. */
  lemma {:induction false} FeedStops(s: DecoderState, a: seq<byte>, b: seq<byte>)
    requires Wf(s) && s.bufIndex < CodeCount
    requires Feed(s, a).outcome != InProgress
    ensures var r := Feed(s, a); Feed(s, a + b) == FeedResult(r.state, r.outcome, r.rest + b)
    decreases |a|
  {
    assert a != [];
    assert (a + b)[0] == a[0] && (a + b)[1..] == a[1..] + b;
    var (s1, o) := Step(s, a[0]);
    if o == InProgress {
      FeedStops(s1, a[1..], b);
    }
  }

  /** A decoder that has stopped on a stream stops in the same way on any longer stream. */
  lemma FeedPrefixStops(s: DecoderState, a: seq<byte>, b: seq<byte>)
    requires Wf(s) && s.bufIndex < CodeCount && a <= b
    requires Feed(s, a).outcome != InProgress
    ensures Feed(s, b).outcome == Feed(s, a).outcome && Feed(s, b).state == Feed(s, a).state
  {
    PrefixSplit(a, b);
    FeedStops(s, a, b[|a|..]);
  }

  /** A decoder that stops exactly at the end of a stream is still in progress on every proper prefix of it. */
  lemma FeedBeforeEnd(s: DecoderState, q: seq<byte>, e: seq<byte>)
    requires Wf(s) && s.bufIndex < CodeCount && q <= e && |q| < |e|
    requires Feed(s, e).outcome != InProgress && Feed(s, e).rest == []
    ensures Feed(s, q).outcome == InProgress
  {
    if Feed(s, q).outcome != InProgress {
      PrefixSplit(q, e);
      FeedStops(s, q, e[|q|..]);
      assert false;
    }
  }

  /** Number of zero codes at the front of `c`. */
  function LeadingZeros(c: seq<byte>): (z: nat)
    ensures z <= |c|
    ensures forall k | 0 <= k < z :: c[k] == 0
    ensures z < |c| ==> c[z] != 0
  {
    if c == [] || c[0] != 0 then 0 else 1 + LeadingZeros(c[1..])
  }

  /** The longest run one escape pair can stand for. */
  const MaxRun: nat := MinRun + 15

  /**
   * A compressor following the scheme the decoder reads: every code as a
   * literal nybble, except that a run of three or more zeros is sent as F
   * followed by (run length - 3), split greedily into chunks of at most 18
   * zeros.  How the device itself splits long runs is not known; this is one
   * encoder whose output the decoder accepts.
   */
  function Encode(c: seq<byte>): (ns: seq<byte>)
    requires forall k | 0 <= k < |c| :: c[k] < 15
    ensures |ns| <= |c|
    ensures forall k | 0 <= k < |ns| :: ns[k] < 16
    decreases |c|
  {
    if c == [] then []
    else
      var z := LeadingZeros(c);
      if z >= MinRun then
        var len := RunChunk(c);
        [RunEscape, len - MinRun] + Encode(c[len..])
      else
        [c[0]] + Encode(c[1..])
  }

  /** The decoder state once the codes `c` have been decoded after what `s` already holds. */
  function Decoded(s: DecoderState, c: seq<byte>): (t: DecoderState)
    requires Wf(s) && s.bufIndex + |c| == CodeCount
    requires forall k | 0 <= k < |c| :: c[k] < 15
    ensures Wf(t) && t.bufIndex == CodeCount && !t.runPending
    ensures t.partial == s.partial[..s.bufIndex] + c && t.image == Unpack(t.partial)
  {
    var done := s.partial[..s.bufIndex] + c;
    assert forall k | 0 <= k < |done| :: done[k] < 15 by {
      forall k | 0 <= k < |done| ensures done[k] < 15 {
        if k >= s.bufIndex { assert done[k] == c[k - s.bufIndex]; }
      }
    }
    DecoderState(CodeCount, false, done, Unpack(done))
  }

  /**
   * Decoding an encoded tail completes exactly on its last nybble with the
   * tail appended to what the decoder already holds.
   */
  lemma {:induction false} FeedEncoded(s: DecoderState, c: seq<byte>)
    requires Wf(s) && !s.runPending && |c| > 0 && s.bufIndex + |c| == CodeCount
    requires forall k | 0 <= k < |c| :: c[k] < 15
    ensures Feed(s, Encode(c)) == FeedResult(Decoded(s, c), Complete, [])
    decreases |c|, 1
  {
    if LeadingZeros(c) >= MinRun {
      FeedEncodedRun(s, c);
    } else {
      FeedEncodedLiteral(s, c);
    }
  }

  /** Feeding a stream one nybble at a time: the first nybble, then the rest. */
  lemma FeedFirst(s: DecoderState, x: byte, tail: seq<byte>)
    requires Wf(s) && s.bufIndex < CodeCount
    ensures Feed(s, [x] + tail) ==
            var (s1, o) := Step(s, x);
            if o == InProgress then Feed(s1, tail) else FeedResult(s1, o, tail)
  {
    assert ([x] + tail)[0] == x && ([x] + tail)[1..] == tail;
  }

  /** The decoder after an escape pair standing for the `len` zeros at the front of `c`. */
  function AfterRun(s: DecoderState, c: seq<byte>, len: nat): (s2: DecoderState)
    requires Wf(s) && !s.runPending && s.bufIndex + |c| == CodeCount
    requires MinRun <= len <= MaxRun && len <= |c|
    requires forall k | 0 <= k < len :: c[k] == 0
    ensures Wf(s2) && !s2.runPending && s2.bufIndex == s.bufIndex + len
    ensures s2.partial[..s2.bufIndex] == s.partial[..s.bufIndex] + c[..len]
  {
    s.(bufIndex := s.bufIndex + len, partial := ZeroRun(s.partial, s.bufIndex, len))
  }

  /** An escape pair writes the zeros it stands for and completes only if they fill the buffer. */
  lemma FeedEscapePair(s: DecoderState, c: seq<byte>, len: nat, tail: seq<byte>)
    requires Wf(s) && !s.runPending && s.bufIndex + |c| == CodeCount
    requires MinRun <= len <= MaxRun && len <= |c|
    requires forall k | 0 <= k < len :: c[k] == 0
    ensures var s2 := AfterRun(s, c, len);
            Feed(s, [RunEscape] + ([len - MinRun] + tail)) ==
            if s2.bufIndex == CodeCount then FeedResult(s2.(image := Unpack(s2.partial)), Complete, tail)
            else Feed(s2, tail)
  {
    var s1 := s.(runPending := true);
    assert Step(s, RunEscape) == (s1, InProgress);
    FeedFirst(s, RunEscape, [len - MinRun] + tail);
    assert Step(s1, len - MinRun) == CheckComplete(AfterRun(s, c, len));
    FeedFirst(s1, len - MinRun, tail);
  }

  /** Two equal decodings of the same codes, however the codes were split. */
  lemma DecodedAfter(s: DecoderState, s2: DecoderState, c: seq<byte>, len: nat)
    requires Wf(s) && Wf(s2) && len <= |c| && s.bufIndex + |c| == CodeCount
    requires forall k | 0 <= k < |c| :: c[k] < 15
    requires s2.bufIndex == s.bufIndex + len
    requires s2.partial[..s2.bufIndex] == s.partial[..s.bufIndex] + c[..len]
    ensures Decoded(s2, c[len..]) == Decoded(s, c)
  {
    assert c[..len] + c[len..] == c;
    assert s2.partial[..s2.bufIndex] + c[len..] == s.partial[..s.bufIndex] + c;
  }

  /** The zeros one escape pair of the encoder stands for. */
  function RunChunk(c: seq<byte>): (len: nat)
    requires LeadingZeros(c) >= MinRun
    ensures MinRun <= len <= MaxRun && len <= |c|
    ensures forall k | 0 <= k < len :: c[k] == 0
  {
    var z := LeadingZeros(c);
    if z < MaxRun then z else MaxRun
  }

  /** `FeedEncoded` when the tail starts with a run of zeros, sent as an escape pair. */
  lemma {:induction false} FeedEncodedRun(s: DecoderState, c: seq<byte>)
    requires Wf(s) && !s.runPending && |c| > 0 && s.bufIndex + |c| == CodeCount
    requires forall k | 0 <= k < |c| :: c[k] < 15
    requires LeadingZeros(c) >= MinRun
    ensures Feed(s, Encode(c)) == FeedResult(Decoded(s, c), Complete, [])
    decreases |c|, 0
  {
    var len := RunChunk(c);
    var tail := Encode(c[len..]);
    assert Encode(c) == [RunEscape] + ([len - MinRun] + tail);
    var s2 := AfterRun(s, c, len);
    FeedEscapePair(s, c, len, tail);
    DecodedAfter(s, s2, c, len);
    if s2.bufIndex == CodeCount {
      assert |c[len..]| == 0;
      assert s2.partial[..s2.bufIndex] == s2.partial;
    } else {
      FeedEncoded(s2, c[len..]);
    }
  }

  /** The decoder after the literal code at the front of `c`. */
  function AfterLiteral(s: DecoderState, c: seq<byte>): (s1: DecoderState)
    requires Wf(s) && !s.runPending && |c| > 0 && s.bufIndex + |c| == CodeCount && c[0] < 15
    ensures Wf(s1) && !s1.runPending && s1.bufIndex == s.bufIndex + 1
    ensures s1.partial[..s1.bufIndex] == s.partial[..s.bufIndex] + c[..1]
  {
    s.(bufIndex := s.bufIndex + 1, partial := s.partial[s.bufIndex := c[0]])
  }

  /** A literal writes itself and completes only if it fills the buffer. */
  lemma FeedLiteral(s: DecoderState, c: seq<byte>, tail: seq<byte>)
    requires Wf(s) && !s.runPending && |c| > 0 && s.bufIndex + |c| == CodeCount && c[0] < 15
    ensures var s1 := AfterLiteral(s, c);
            Feed(s, [c[0]] + tail) ==
            if s1.bufIndex == CodeCount then FeedResult(s1.(image := Unpack(s1.partial)), Complete, tail)
            else Feed(s1, tail)
  {
    assert Step(s, c[0]) == CheckComplete(AfterLiteral(s, c));
    FeedFirst(s, c[0], tail);
  }

  /** `FeedEncoded` when the tail starts with a code sent as a literal. */
  lemma {:induction false} FeedEncodedLiteral(s: DecoderState, c: seq<byte>)
    requires Wf(s) && !s.runPending && |c| > 0 && s.bufIndex + |c| == CodeCount
    requires forall k | 0 <= k < |c| :: c[k] < 15
    requires LeadingZeros(c) < MinRun
    ensures Feed(s, Encode(c)) == FeedResult(Decoded(s, c), Complete, [])
    decreases |c|, 0
  {
    var tail := Encode(c[1..]);
    assert Encode(c) == [c[0]] + tail;
    var s1 := AfterLiteral(s, c);
    FeedLiteral(s, c, tail);
    DecodedAfter(s, s1, c, 1);
    if s1.bufIndex == CodeCount {
      assert |c[1..]| == 0;
      assert s1.partial[..s1.bufIndex] == s1.partial;
    } else {
      FeedEncoded(s1, c[1..]);
    }
  }

  /**
   * Round trip: the encoding of any 181 codes, fed to a freshly reset decoder,
   * completes on its very last nybble and rebuilds exactly those codes and
   * their image.
   */
  lemma RoundTrip(c: seq<byte>)
    requires IsCodes(c)
    ensures var r := Feed(ResetState(), Encode(c));
            r.outcome == Complete && r.rest == [] &&
            r.state.bufIndex == CodeCount && r.state.partial == c && r.state.image == Unpack(c)
  {
    FeedEncoded(ResetState(), c);
    assert ResetState().partial[..0] + c == c;
  }
}
