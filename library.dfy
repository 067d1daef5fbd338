/**
 * The device handle of the library: the decoder fields, the timestamp of the
 * image being assembled and of the last completed one, and the image callback.
 * Image reports are reassembled across transfers that share a timestamp; a
 * completed image is handed to the callback, modelled here as a log of
 * deliveries.
 */
module Library {
  import opened Types
  import opened Grid
  import opened Codec
  import opened Reports
  import opened Decoding

  /** What the image callback receives: the unpacked image and its timestamp. */
  datatype Delivery = Delivery(image: seq<byte>, timestamp: byte)

  /** The reassembly state of a device as a value. */
  datatype Session = Session(dec: DecoderState, tsInProgress: byte, tsLastCompleted: byte)

  /** Between reports the decoder always has room for one more nybble. */
  predicate SessionOk(ss: Session) {
    Wf(ss.dec) && ss.dec.bufIndex < CodeCount
  }

  /** The state of a freshly opened device: everything zero. */
  function OpenSession(): (ss: Session)
    ensures SessionOk(ss)
  {
    Session(ResetState(), 0, 0)
  }

  /**
   * What one read report does: `rc` is the value the event loop returns at
   * once (0 after a delivery, -1 after a decoding error), or None when it
   * keeps reading.
   */
  datatype FrameOutcome = FrameOutcome(session: Session, rc: Option<int>, delivery: Option<Delivery>)

  /** The decoder a report starts from: a new timestamp abandons an image already begun. */
  function StartFor(ss: Session, ts: byte): DecoderState {
    if ss.dec.bufIndex != 0 && ts != ss.tsInProgress then ResetState() else ss.dec
  }

  /** One read report, as the event loop handles it. */
  function FrameStep(ss: Session, data: seq<byte>): (r: FrameOutcome)
    requires SessionOk(ss) && LengthFits(data)
    ensures SessionOk(r.session)
    // reads that are not image reports change nothing
    ensures !Accepted(data) ==> r == FrameOutcome(ss, None, None)
    ensures Accepted(data) ==> r.session.tsInProgress == Timestamp(data)
    // a delivery and only a delivery ends the loop with 0; a decoding error ends it with -1
    ensures r.delivery.Some? <==> r.rc == Some(0)
    ensures r.rc.Some? ==> r.rc == Some(0) || r.rc == Some(-1)
    // ending the loop leaves a reset decoder behind
    ensures r.rc.Some? ==> r.session.dec == ResetState()
    ensures r.rc != Some(0) ==> r.session.tsLastCompleted == ss.tsLastCompleted
    // the delivered image is the grid unpack of the decoded codes, stamped with the report's timestamp
    ensures r.delivery.Some? ==>
              && r.delivery.value.timestamp == Timestamp(data) == r.session.tsLastCompleted
              && exists codes | IsCodes(codes) :: r.delivery.value.image == Unpack(codes)
  {
    if !Accepted(data) then FrameOutcome(ss, None, None)
    else
      var ts := Timestamp(data);
      var fr := Feed(StartFor(ss, ts), Nybbles(Payload(data)));
      match fr.outcome
      case InProgress => FrameOutcome(Session(fr.state, ts, ss.tsLastCompleted), None, None)
      case Complete => FrameOutcome(Session(ResetState(), ts, ts), Some(0), Some(Delivery(fr.state.image, ts)))
      case Error => FrameOutcome(Session(ResetState(), ts, ss.tsLastCompleted), Some(-1), None)
  }

  /** What a read from the device gave: an error code, or the bytes of one report (none on a timeout). */
  datatype Read = Failed(code: int) | Received(bytes: seq<byte>)

  predicate ReadsFit(arrivals: seq<Read>) {
    forall i | 0 <= i < |arrivals| :: arrivals[i].Received? ==> LengthFits(arrivals[i].bytes)
  }

  /** The result of the event loop: the state left behind, the return code and the deliveries made. */
  datatype EventsResult = EventsResult(session: Session, rc: int, delivered: seq<Delivery>)

  /**
   * The event loop over the reads that arrive before the deadline: a failed
   * read returns -2, a report that ends the loop returns its code, and running
   * out of time returns 0.
   */
  function Events(ss: Session, arrivals: seq<Read>): (r: EventsResult)
    requires SessionOk(ss) && ReadsFit(arrivals)
    ensures SessionOk(r.session)
    ensures |r.delivered| <= 1
    ensures r.rc == 0 || r.rc == -1 || r.rc == -2
    ensures r.delivered != [] ==> r.rc == 0
    // a failed first read returns at once; -2 only ever comes from a failed read
    ensures arrivals != [] && arrivals[0].Failed? ==> r == EventsResult(ss, -2, [])
    ensures r.rc == -2 ==> exists i | 0 <= i < |arrivals| :: arrivals[i].Failed?
    decreases |arrivals|
  {
    if arrivals == [] then EventsResult(ss, 0, [])
    else match arrivals[0]
      case Failed(_) => EventsResult(ss, -2, [])
      case Received(bytes) =>
        var r := FrameStep(ss, bytes);
        if r.rc.Some? then
          EventsResult(r.session, r.rc.value, if r.delivery.Some? then [r.delivery.value] else [])
        else Events(r.session, arrivals[1..])
  }

  /**
   * The mode a device can be put in: the enum's two named values (0 and 1),
   * or any other value the enum type can carry.
   */
  datatype Mode = Default | RawImage | Unlisted(value: OtherMode)

  /** An enum value other than the two named modes. */
  type OtherMode = v: int | v != 0 && v != 1 witness 2

  /** The size of feature report 0x22, which holds the mode flags, and where the flags sit in it. */
  const FeatureReportSize: nat := 27
  const ModeFlagsOffset: nat := 4

  /** The feature report to write back: the one read, with the mode flags set for the mode. */
  function ModeReport(current: seq<byte>, mode: Mode): (r: seq<byte>)
    requires |current| == FeatureReportSize
    ensures |r| == FeatureReportSize
    ensures forall k | 0 <= k < FeatureReportSize && k != ModeFlagsOffset :: r[k] == current[k]
    ensures mode == Default ==> r[ModeFlagsOffset] == 0x00
    ensures mode == RawImage ==> r[ModeFlagsOffset] == 0x06
    ensures mode.Unlisted? ==> r == current
  {
    match mode
    case Default => current[ModeFlagsOffset := 0x00]
    case RawImage => current[ModeFlagsOffset := 0x06]
    case Unlisted(_) => current
  }

  /**
   * Reads the feature report, rewrites the mode flags and writes it back.
   * `received` is what the read left in the 27-byte buffer and `transferred`
   * the count it returned; `written` is the count the write returns.  Returns
   * 0 only when both moved exactly 27 bytes, and the report it wrote, if any.
   */
  method SetDeviceMode(mode: Mode, received: seq<byte>, transferred: int, written: int)
    returns (rc: int, sent: Option<seq<byte>>)
    requires |received| == FeatureReportSize
    ensures rc == 0 || rc == -1
    ensures rc == 0 <==> transferred == FeatureReportSize && written == FeatureReportSize
    ensures sent.Some? <==> transferred == FeatureReportSize
    ensures sent.Some? ==> sent.value == ModeReport(received, mode)
  {
    var data := new byte[FeatureReportSize];
    forall k | 0 <= k < FeatureReportSize {
      data[k] := received[k];
    }
    if transferred != FeatureReportSize {
      return -1, None;
    }
    match mode {
      case Default => data[ModeFlagsOffset] := 0x00;
      case RawImage => data[ModeFlagsOffset] := 0x06;
      case Unlisted(_) =>
    }
    sent := Some(data[..]);
    rc := if written == FeatureReportSize then 0 else -1;
  }

  class Device {
    const decoder: Decoder
    var timestampLastCompleted: byte
    var timestampInProgress: byte
    /** The images handed to the callback so far, oldest first. */
    ghost var delivered: seq<Delivery>

    ghost predicate Valid()
      reads this, decoder, decoder.partialImage, decoder.image
    {
      decoder.Valid() && decoder.bufIndex < CodeCount
    }

    ghost function State(): (ss: Session)
      reads this, decoder, decoder.partialImage, decoder.image
      requires Valid()
      ensures SessionOk(ss)
    {
      Session(decoder.State(), timestampInProgress, timestampLastCompleted)
    }

    /** Opening a device zero-fills its state. */
    constructor ()
      ensures Valid() && State() == OpenSession() && delivered == []
      ensures fresh(decoder) && fresh(decoder.partialImage) && fresh(decoder.image)
    {
      decoder := new Decoder();
      timestampLastCompleted := 0;
      timestampInProgress := 0;
      delivered := [];
    }

    /** Hands the completed image to the callback, then resets the decoder for the next image. */
    method Deliver(ts: byte)
      requires decoder.Valid()
      modifies this, decoder, decoder.partialImage, decoder.image
      ensures Valid() && decoder.State() == ResetState()
      ensures timestampLastCompleted == ts && timestampInProgress == old(timestampInProgress)
      ensures delivered == old(delivered) + [Delivery(old(decoder.image[..]), ts)]
    {
      timestampLastCompleted := ts;
      delivered := delivered + [Delivery(decoder.image[..], ts)];
      decoder.Reset();
    }

    /** One read report: the body of the event loop for a read that returned data. */
    method ProcessReport(data: seq<byte>) returns (rc: Option<int>)
      requires Valid() && LengthFits(data)
      modifies this, decoder, decoder.partialImage, decoder.image
      ensures Valid()
      ensures var r := FrameStep(old(State()), data);
              && State() == r.session && rc == r.rc
              && delivered == old(delivered) + (if r.delivery.Some? then [r.delivery.value] else [])
    {
      if !(|data| == ReportSize && data[0] == ImageReportId) {
        return None;
      }
      ghost var ss := State();
      var ts := data[TimestampOffset];
      if decoder.bufIndex != 0 && ts != timestampInProgress {
        decoder.Reset();
      }
      timestampInProgress := ts;
      assert decoder.State() == StartFor(ss, ts);
      var res := decoder.ProcessData(data);
      if res == Complete {
        Deliver(ts);
        return Some(0);
      }
      if res == Error {
        decoder.Reset();
        return Some(-1);
      }
      return None;
    }

    /**
     * The event loop over the reads that arrive before the deadline: each
     * read report is handled in turn until one ends the loop or a read fails.
     */
    method ProcessEvents(arrivals: seq<Read>) returns (rc: int)
      requires Valid() && ReadsFit(arrivals)
      modifies this, decoder, decoder.partialImage, decoder.image
      ensures Valid()
      ensures var r := Events(old(State()), arrivals);
              State() == r.session && rc == r.rc && delivered == old(delivered) + r.delivered
    {
      ghost var whole := Events(State(), arrivals);
      var i := 0;
      while i < |arrivals|
        invariant 0 <= i <= |arrivals| && Valid()
        invariant whole == Events(State(), arrivals[i..])
        invariant delivered == old(delivered)
      {
        assert arrivals[i..][1..] == arrivals[i + 1..];
        match arrivals[i]
        case Failed(_) =>
          return -2;
        case Received(bytes) =>
          var frameRc := ProcessReport(bytes);
          if frameRc.Some? {
            return frameRc.value;
          }
          i := i + 1;
      }
      return 0;
    }
  }

  /**
   * At a byte boundary a decoder at position 0 has not started an image.  The
   * only nybble that leaves the cursor at 0 is an escape read at cursor 0; at a
   * byte boundary that escape is a low nybble, so its run length is the high
   * nybble of the same byte, and the cursor has moved on by the byte's end.
   * (An escape read later can be a high nybble whose run length is in the next
   * byte, but by then the cursor is already past 0.)
   */
  predicate Settled(d: DecoderState) {
    d.bufIndex == 0 ==> d == ResetState()
  }

  /** One whole data byte fed to a settled decoder leaves it settled. */
  lemma PairSettled(s: DecoderState, b: byte)
    requires Wf(s) && s.bufIndex < CodeCount && Settled(s)
    ensures var r := Feed(s, [b % 16, b / 16]); r.outcome == InProgress ==> r.state.bufIndex > 0
  {
    var lo, hi := b % 16, b / 16;
    FeedFirst(s, lo, [hi]);
    assert [lo] + [hi] == [lo, hi];
    var (s1, o) := Step(s, lo);
    StepEffect(s, lo);
    if o == InProgress {
      FeedFirst(s1, hi, []);
      assert [hi] + [] == [hi];
      StepEffect(s1, hi);
    }
  }

  /** Feeding whole data bytes to a settled decoder leaves it settled. */
  lemma {:induction false} BytesSettled(s: DecoderState, p: seq<byte>)
    requires Wf(s) && s.bufIndex < CodeCount && Settled(s)
    ensures var r := Feed(s, Nybbles(p)); r.outcome == InProgress ==> Settled(r.state)
    decreases |p|
  {
    if p != [] {
      var t := |p| - 1;
      var init := p[..t];
      assert p[..t + 1] == p;
      NybblesAround(p, t);
      BytesSettled(s, init);
      var m := Feed(s, Nybbles(init));
      if m.outcome == InProgress {
        FeedAppend(s, Nybbles(init), [p[t] % 16, p[t] / 16]);
        if m.state.bufIndex == 0 {
          PairSettled(m.state, p[t]);
        } else {
          var r := Feed(m.state, [p[t] % 16, p[t] / 16]);
          assert r.state.bufIndex >= m.state.bufIndex;
        }
      } else {
        FeedStops(s, Nybbles(init), [p[t] % 16, p[t] / 16]);
      }
    }
  }

  /**
   * Every report leaves the decoder settled, so the library's test
   * `bufIndex != 0` before abandoning an image on a new timestamp loses
   * nothing: it resets exactly the decoders that hold part of an image.
   */
  lemma FrameStepSettled(ss: Session, data: seq<byte>)
    requires SessionOk(ss) && LengthFits(data) && Settled(ss.dec)
    ensures Settled(FrameStep(ss, data).session.dec)
    ensures Accepted(data) ==>
              StartFor(ss, Timestamp(data)) == if Timestamp(data) != ss.tsInProgress then ResetState() else ss.dec
  {
    if Accepted(data) {
      BytesSettled(StartFor(ss, Timestamp(data)), Payload(data));
    }
  }

  /**
   * The session boundary: a report with a new timestamp that arrives while an
   * image is in progress drops that image and decodes its data from a reset
   * decoder.  The loop then returns -1 exactly on a decoding error and
   * delivers exactly on completion; otherwise the decoder is left where the
   * report's data took it.
   */
  lemma FrameAbandons(ss: Session, f: seq<byte>)
    requires SessionOk(ss) && Accepted(f) && LengthFits(f)
    requires ss.dec.bufIndex != 0 && Timestamp(f) != ss.tsInProgress
    ensures var r, out := Feed(ResetState(), Nybbles(Payload(f))), FrameStep(ss, f);
            && out.session.dec == (if r.outcome == InProgress then r.state else ResetState())
            && (out.rc == Some(-1) <==> r.outcome == Error)
            && out.delivery == (if r.outcome == Complete then Some(Delivery(r.state.image, Timestamp(f))) else None)
  {
  }

  /**
   * Within a session (the same timestamp, or no image in progress) a report
   * decodes on from the decoder it finds, with the same outcomes.
   */
  lemma FrameContinues(ss: Session, f: seq<byte>)
    requires SessionOk(ss) && Accepted(f) && LengthFits(f)
    requires ss.dec.bufIndex == 0 || Timestamp(f) == ss.tsInProgress
    ensures var r, out := Feed(ss.dec, Nybbles(Payload(f))), FrameStep(ss, f);
            && out.session.dec == (if r.outcome == InProgress then r.state else ResetState())
            && (out.rc == Some(-1) <==> r.outcome == Error)
            && out.delivery == (if r.outcome == Complete then Some(Delivery(r.state.image, Timestamp(f))) else None)
  {
  }

  /** Every read is an image report whose length byte stays within the report. */
  predicate AllImageReports(frames: seq<seq<byte>>) {
    forall i | 0 <= i < |frames| :: Accepted(frames[i]) && LengthFits(frames[i])
  }

  /** The nybble streams of a series of image reports, one after the other. */
  function AllNybbles(frames: seq<seq<byte>>): (ns: seq<byte>)
    requires AllImageReports(frames)
  {
    if frames == [] then [] else Nybbles(Payload(frames[0])) + AllNybbles(frames[1..])
  }

  /** A series of reads that each returned one report. */
  function AsReads(frames: seq<seq<byte>>): (arrivals: seq<Read>)
    ensures |arrivals| == |frames|
    ensures forall i | 0 <= i < |frames| :: arrivals[i] == Received(frames[i])
  {
    seq(|frames|, i requires 0 <= i < |frames| => Received(frames[i]))
  }

  /** The nybbles of a series of reports: those of the first, then those of the others. */
  lemma AllNybblesFirst(pre: seq<byte>, frames: seq<seq<byte>>)
    requires frames != [] && AllImageReports(frames)
    ensures (pre + Nybbles(Payload(frames[0]))) + AllNybbles(frames[1..]) == pre + AllNybbles(frames)
  {
    AppendAssociates(pre, Nybbles(Payload(frames[0])), AllNybbles(frames[1..]));
  }

  /** A decoder fed a proper prefix of an encoded image is still in progress. */
  lemma EncodedPrefixInProgress(c: seq<byte>, q: seq<byte>)
    requires IsCodes(c) && q <= Encode(c) && |q| < |Encode(c)|
    ensures Feed(ResetState(), q).outcome == InProgress
  {
    RoundTrip(c);
    FeedBeforeEnd(ResetState(), q, Encode(c));
  }

  /** A decoder fed an encoded image, and possibly more, has completed with exactly that image. */
  lemma EncodedThenMore(c: seq<byte>, q: seq<byte>)
    requires IsCodes(c) && Encode(c) <= q
    ensures var r := Feed(ResetState(), q);
            r.outcome == Complete && r.state.partial == c && r.state.image == Unpack(c)
  {
    RoundTrip(c);
    FeedPrefixStops(ResetState(), Encode(c), q);
  }

  /**
   * A report that carries on the image held by the decoder: the decoder is
   * not reset and the report's nybbles continue the stream `pre`.
   */
  lemma FrameCarriesOn(ss: Session, pre: seq<byte>, f: seq<byte>)
    requires Accepted(f) && LengthFits(f)
    requires Feed(ResetState(), pre).outcome == InProgress && ss.dec == Feed(ResetState(), pre).state
    requires ss.dec == ResetState() || ss.tsInProgress == Timestamp(f)
    ensures SessionOk(ss)
    ensures var ts, r := Timestamp(f), Feed(ResetState(), pre + Nybbles(Payload(f)));
            FrameStep(ss, f) ==
              match r.outcome
              case InProgress => FrameOutcome(Session(r.state, ts, ss.tsLastCompleted), None, None)
              case Complete => FrameOutcome(Session(ResetState(), ts, ts), Some(0), Some(Delivery(r.state.image, ts)))
              case Error => FrameOutcome(Session(ResetState(), ts, ss.tsLastCompleted), Some(-1), None)
  {
    assert StartFor(ss, Timestamp(f)) == ss.dec;
    FeedAppend(ResetState(), pre, Nybbles(Payload(f)));
  }

  /** The nybbles of all reports but the last: those of the first, then those of the others but the last. */
  lemma AllButLast(frames: seq<seq<byte>>)
    requires |frames| >= 2 && AllImageReports(frames)
    ensures AllNybbles(frames[..|frames| - 1]) ==
            Nybbles(Payload(frames[0])) + AllNybbles(frames[1..][..|frames| - 2])
  {
    var init := frames[..|frames| - 1];
    assert init[0] == frames[0] && init[1..] == frames[1..][..|frames| - 2];
  }

  /** The last report of the series: it finishes the encoded image and the loop delivers it. */
  lemma ReassembleLast(ss: Session, pre: seq<byte>, f: seq<byte>, c: seq<byte>)
    requires IsCodes(c) && Accepted(f) && LengthFits(f)
    requires Feed(ResetState(), pre).outcome == InProgress && ss.dec == Feed(ResetState(), pre).state
    requires ss.dec == ResetState() || ss.tsInProgress == Timestamp(f)
    requires Encode(c) <= pre + Nybbles(Payload(f))
    ensures SessionOk(ss) && ReadsFit(AsReads([f]))
    ensures var ts := Timestamp(f);
            Events(ss, AsReads([f])) == EventsResult(Session(ResetState(), ts, ts), 0, [Delivery(Unpack(c), ts)])
  {
    assert AsReads([f])[0] == Received(f);
    FrameCarriesOn(ss, pre, f);
    EncodedThenMore(c, pre + Nybbles(Payload(f)));
  }

  /**
   * The decoder holds the nybbles `pre` of an image whose encoding the
   * reports `frames`, all stamped `ts`, complete in their last report.
   */
  predicate Resumable(ss: Session, pre: seq<byte>, frames: seq<seq<byte>>, c: seq<byte>, ts: byte) {
    && IsCodes(c) && frames != [] && AllImageReports(frames)
    && (forall i | 0 <= i < |frames| :: Timestamp(frames[i]) == ts)
    && Feed(ResetState(), pre).outcome == InProgress && ss.dec == Feed(ResetState(), pre).state
    && (ss.dec == ResetState() || ss.tsInProgress == ts)
    && Encode(c) <= pre + AllNybbles(frames)
    && |pre + AllNybbles(frames[..|frames| - 1])| < |Encode(c)|
  }

  /** The induction behind `ReassembleImage`. */
  lemma {:induction false} ReassembleFrom(ss: Session, pre: seq<byte>, frames: seq<seq<byte>>, c: seq<byte>, ts: byte)
    requires Resumable(ss, pre, frames, c, ts)
    ensures SessionOk(ss) && ReadsFit(AsReads(frames))
    ensures Events(ss, AsReads(frames)) == EventsResult(Session(ResetState(), ts, ts), 0, [Delivery(Unpack(c), ts)])
    decreases |frames|
  {
    var f, rest := frames[0], frames[1..];
    if rest == [] {
      assert frames == [f];
      assert pre + AllNybbles(frames) == pre + Nybbles(Payload(f)) by {
        AllNybblesFirst(pre, frames);
      }
      ReassembleLast(ss, pre, f, c);
    } else {
      ReassembleNext(ss, pre, frames, c, ts);
      EventsFirst(ss, frames);
      ReassembleFrom(FrameStep(ss, f).session, pre + Nybbles(Payload(f)), rest, c, ts);
    }
  }

  /** A report before the last one keeps the image in progress, with its nybbles added to the stream. */
  lemma ReassembleNext(ss: Session, pre: seq<byte>, frames: seq<seq<byte>>, c: seq<byte>, ts: byte)
    requires Resumable(ss, pre, frames, c, ts) && |frames| >= 2
    ensures SessionOk(ss)
    ensures var r := FrameStep(ss, frames[0]);
            r.rc.None? && Resumable(r.session, pre + Nybbles(Payload(frames[0])), frames[1..], c, ts)
  {
    var f, rest := frames[0], frames[1..];
    var q := pre + Nybbles(Payload(f));
    AllNybblesFirst(pre, frames);
    AllButLast(frames);
    AppendAssociates(pre, Nybbles(Payload(f)), AllNybbles(rest[..|rest| - 1]));
    assert q <= Encode(c);
    EncodedPrefixInProgress(c, q);
    FrameCarriesOn(ss, pre, f);
  }

  /** The event loop over a series of reports: the first report, then the others unless it ended the loop. */
  lemma EventsFirst(ss: Session, frames: seq<seq<byte>>)
    requires SessionOk(ss) && frames != [] && AllImageReports(frames)
    ensures ReadsFit(AsReads(frames))
    ensures var r := FrameStep(ss, frames[0]);
            r.rc.None? ==> Events(ss, AsReads(frames)) == Events(r.session, AsReads(frames[1..]))
  {
    assert AsReads(frames)[0] == Received(frames[0]) && AsReads(frames)[1..] == AsReads(frames[1..]);
  }


  /**
   * Reassembly across transfers: starting from a reset decoder, a series of
   * image reports with one timestamp whose nybbles begin with the encoding of
   * an image, the last report being the one that finishes it, makes the event
   * loop deliver exactly that image with that timestamp and return 0.
   */
  lemma ReassembleImage(ss: Session, frames: seq<seq<byte>>, c: seq<byte>, ts: byte)
    requires IsCodes(c) && frames != [] && AllImageReports(frames)
    requires forall i | 0 <= i < |frames| :: Timestamp(frames[i]) == ts
    requires ss.dec == ResetState()
    requires Encode(c) <= AllNybbles(frames)
    requires |AllNybbles(frames[..|frames| - 1])| < |Encode(c)|
    ensures SessionOk(ss) && ReadsFit(AsReads(frames))
    ensures Events(ss, AsReads(frames)) == EventsResult(Session(ResetState(), ts, ts), 0, [Delivery(Unpack(c), ts)])
  {
    StartResumable(ss, frames, c, ts);
    ReassembleFrom(ss, [], frames, c, ts);
  }

  /** The conditions of `ReassembleImage` are those of `Resumable` with nothing decoded yet. */
  lemma StartResumable(ss: Session, frames: seq<seq<byte>>, c: seq<byte>, ts: byte)
    requires IsCodes(c) && frames != [] && AllImageReports(frames)
    requires forall i | 0 <= i < |frames| :: Timestamp(frames[i]) == ts
    requires ss.dec == ResetState()
    requires Encode(c) <= AllNybbles(frames)
    requires |AllNybbles(frames[..|frames| - 1])| < |Encode(c)|
    ensures Resumable(ss, [], frames, c, ts)
  {
    assert Feed(ResetState(), []) == FeedResult(ResetState(), InProgress, []);
    assert [] + AllNybbles(frames) == AllNybbles(frames);
    assert [] + AllNybbles(frames[..|frames| - 1]) == AllNybbles(frames[..|frames| - 1]);
  }
}
