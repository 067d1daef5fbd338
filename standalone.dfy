/**
 * The standalone viewer: it puts the mouse into image mode, then polls for
 * reports and hands every completed image to its print callback, modelled
 * here as a log of deliveries.  It shares the decoder with the library but
 * reassembles images its own way: any change of timestamp resets the decoder,
 * a completed image does not end the polling, and a decoding error ends the
 * program.
 */
module Standalone {
  import opened Types
  import opened Grid
  import opened Codec
  import opened Reports
  import opened Decoding
  import opened Library

  /** The reassembly state of the viewer as a value: the decoder and the last timestamp seen. */
  datatype Poll = Poll(dec: DecoderState, lastTimestamp: byte)

  predicate PollOk(p: Poll) {
    Wf(p.dec) && p.dec.bufIndex < CodeCount
  }

  /** What one read report does: the new state, whether polling stops, and the image printed. */
  datatype PollOutcome = PollOutcome(poll: Poll, stop: bool, delivery: Option<Delivery>)

  /** One read report, as the polling loop handles it. */
  function PollStep(p: Poll, data: seq<byte>): (r: PollOutcome)
    requires PollOk(p) && LengthFits(data)
    ensures PollOk(r.poll)
    // reads that are not image reports change nothing
    ensures !Accepted(data) ==> r == PollOutcome(p, false, None)
    ensures Accepted(data) ==> r.poll.lastTimestamp == Timestamp(data)
    // a printed image leaves a reset decoder and polling goes on
    ensures r.delivery.Some? ==> !r.stop && r.poll.dec == ResetState()
    ensures r.delivery.Some? ==>
              && r.delivery.value.timestamp == Timestamp(data)
              && exists codes | IsCodes(codes) :: r.delivery.value.image == Unpack(codes)
  {
    if !Accepted(data) then PollOutcome(p, false, None)
    else
      var ts := Timestamp(data);
      var start := if ts != p.lastTimestamp then ResetState() else p.dec;
      var fr := Feed(start, Nybbles(Payload(data)));
      match fr.outcome
      case InProgress => PollOutcome(Poll(fr.state, ts), false, None)
      case Complete => PollOutcome(Poll(ResetState(), ts), false, Some(Delivery(fr.state.image, ts)))
      case Error => PollOutcome(Poll(fr.state, ts), true, None)
  }

  /** The images a report printed, as a list. */
  function Printed(d: Option<Delivery>): (l: seq<Delivery>)
    ensures |l| <= 1 && (l != [] <==> d.Some?)
  {
    if d.Some? then [d.value] else []
  }

  /** The result of the polling loop: the state left behind, the exit code and the images printed. */
  datatype PollingResult = PollingResult(poll: Poll, rc: int, delivered: seq<Delivery>)

  /**
   * The polling loop over the reads that arrive before the user quits: a
   * failed read exits with -1, a decoding error or quitting exits with 0.
   */
  function Polling(p: Poll, arrivals: seq<Read>): (r: PollingResult)
    requires PollOk(p) && ReadsFit(arrivals)
    ensures PollOk(r.poll)
    ensures r.rc == 0 || r.rc == -1
    decreases |arrivals|
  {
    if arrivals == [] then PollingResult(p, 0, [])
    else match arrivals[0]
      case Failed(_) => PollingResult(p, -1, [])
      case Received(bytes) =>
        var r := PollStep(p, bytes);
        var printed := Printed(r.delivery);
        if r.stop then PollingResult(r.poll, 0, printed)
        else
          var rest := Polling(r.poll, arrivals[1..]);
          PollingResult(rest.poll, rest.rc, printed + rest.delivered)
  }

  class Poller {
    const decoder: Decoder
    var lastTimestamp: byte
    /** The images printed so far, oldest first. */
    ghost var delivered: seq<Delivery>

    ghost predicate Valid()
      reads this, decoder, decoder.partialImage, decoder.image
    {
      decoder.Valid() && decoder.bufIndex < CodeCount
    }

    ghost function State(): (p: Poll)
      reads this, decoder, decoder.partialImage, decoder.image
      requires Valid()
      ensures PollOk(p)
    {
      Poll(decoder.State(), lastTimestamp)
    }

    /** The viewer starts from a zero-filled decoder and a last timestamp of 0. */
    constructor ()
      ensures Valid() && State() == Poll(ResetState(), 0) && delivered == []
      ensures fresh(decoder) && fresh(decoder.partialImage) && fresh(decoder.image)
    {
      decoder := new Decoder();
      lastTimestamp := 0;
      delivered := [];
    }

    /** One read report: the body of the polling loop for a read that returned data. */
    method PollReport(data: seq<byte>) returns (stop: bool)
      requires Valid() && LengthFits(data)
      modifies this, decoder, decoder.partialImage, decoder.image
      ensures Valid()
      ensures var r := PollStep(old(State()), data);
              && State() == r.poll && stop == r.stop
              && delivered == old(delivered) + Printed(r.delivery)
    {
      if !(|data| == ReportSize && data[0] == ImageReportId) {
        return false;
      }
      var ts := data[TimestampOffset];
      if ts != lastTimestamp {
        decoder.Reset();
        lastTimestamp := ts;
      }
      var res := decoder.ProcessData(data);
      if res == Complete {
        delivered := delivered + [Delivery(decoder.image[..], ts)];
        decoder.Reset();
      }
      return res == Error;
    }

    /** The polling loop, over the reads that arrive before the user quits. */
    method PollLoop(arrivals: seq<Read>) returns (rc: int)
      requires Valid() && ReadsFit(arrivals)
      modifies this, decoder, decoder.partialImage, decoder.image
      ensures Valid()
      ensures var r := Polling(old(State()), arrivals);
              State() == r.poll && rc == r.rc && delivered == old(delivered) + r.delivered
    {
      ghost var whole := Polling(State(), arrivals);
      ghost var printed: seq<Delivery> := [];
      rc := 0;
      var i, stopped := 0, false;
      while i < |arrivals| && !stopped
        invariant 0 <= i <= |arrivals| && Valid()
        invariant delivered == old(delivered) + printed
        invariant !stopped ==> rc == 0 && whole == After(printed, Polling(State(), arrivals[i..]))
        invariant stopped ==> whole == PollingResult(State(), rc, printed)
      {
        ghost var before := State();
        ghost var tail := arrivals[i..];
        assert tail[0] == arrivals[i] && tail[1..] == arrivals[i + 1..];
        PollingAt(before, tail, printed, whole);
        match arrivals[i]
        case Failed(_) =>
          rc, stopped, i := -1, true, i + 1;
        case Received(bytes) =>
          ghost var step := PollStep(before, bytes);
          var stop := PollReport(bytes);
          printed := printed + Printed(step.delivery);
          stopped := stop;
          i := i + 1;
      }
    }
  }

  /**
   * The exit codes of the polling loop: a failed first read exits with -1 at
   * once, and -1 only ever comes from a failed read, so a series of reads that
   * all returned data ends with 0, whether by a decoding error or by quitting.
   */
  lemma {:induction false} PollingExitCodes(p: Poll, arrivals: seq<Read>)
    requires PollOk(p) && ReadsFit(arrivals)
    ensures arrivals != [] && arrivals[0].Failed? ==> Polling(p, arrivals) == PollingResult(p, -1, [])
    ensures Polling(p, arrivals).rc == -1 ==> exists i | 0 <= i < |arrivals| :: arrivals[i].Failed?
    decreases |arrivals|
  {
    if arrivals != [] && arrivals[0].Received? {
      var r := PollStep(p, arrivals[0].bytes);
      if !r.stop {
        PollingExitCodes(r.poll, arrivals[1..]);
        if Polling(p, arrivals).rc == -1 {
          var i :| 0 <= i < |arrivals[1..]| && arrivals[1..][i].Failed?;
          assert arrivals[i + 1].Failed?;
        }
      }
    }
  }

  /** One turn of the polling loop, in terms of what the loop has printed so far. */
  lemma PollingAt(p: Poll, tail: seq<Read>, printed: seq<Delivery>, whole: PollingResult)
    requires PollOk(p) && ReadsFit(tail) && tail != []
    requires whole == After(printed, Polling(p, tail))
    ensures ReadsFit(tail[1..])
    ensures tail[0].Failed? ==> whole == PollingResult(p, -1, printed)
    ensures tail[0].Received? ==>
              var r := PollStep(p, tail[0].bytes);
              r.stop ==> whole == PollingResult(r.poll, 0, printed + Printed(r.delivery))
    ensures tail[0].Received? ==>
              var r := PollStep(p, tail[0].bytes);
              !r.stop ==> whole == After(printed + Printed(r.delivery), Polling(r.poll, tail[1..]))
  {
    PollingFirst(p, tail);
    if tail[0].Failed? {
      assert printed + [] == printed;
    } else {
      var r := PollStep(p, tail[0].bytes);
      if !r.stop {
        AfterAfter(printed, Printed(r.delivery), Polling(r.poll, tail[1..]));
      }
    }
  }

  /** A polling result preceded by the images printed before it. */
  function After(printed: seq<Delivery>, r: PollingResult): PollingResult {
    PollingResult(r.poll, r.rc, printed + r.delivered)
  }

  lemma AfterAfter(a: seq<Delivery>, b: seq<Delivery>, r: PollingResult)
    ensures After(a, After(b, r)) == After(a + b, r)
  {
    AppendAssociates(a, b, r.delivered);
  }

  /** The polling loop on its first read: a failed read exits, a report stops the loop or hands on to the rest. */
  lemma PollingFirst(p: Poll, arrivals: seq<Read>)
    requires PollOk(p) && ReadsFit(arrivals) && arrivals != []
    ensures ReadsFit(arrivals[1..])
    ensures arrivals[0].Failed? ==> Polling(p, arrivals) == PollingResult(p, -1, [])
    ensures arrivals[0].Received? ==>
              var r := PollStep(p, arrivals[0].bytes);
              Polling(p, arrivals) ==
                if r.stop then PollingResult(r.poll, 0, Printed(r.delivery))
                else After(Printed(r.delivery), Polling(r.poll, arrivals[1..]))
  {
  }


  /**
   * The viewer's session boundary: any report with a timestamp other than the
   * last one seen decodes its data from a reset decoder.  Polling stops
   * exactly on a decoding error, an image is printed exactly on completion,
   * and otherwise the decoder is left where the report's data took it.
   */
  lemma PollAbandons(p: Poll, f: seq<byte>)
    requires PollOk(p) && Accepted(f) && LengthFits(f) && Timestamp(f) != p.lastTimestamp
    ensures var r, out := Feed(ResetState(), Nybbles(Payload(f))), PollStep(p, f);
            && out.poll == Poll(if r.outcome == Complete then ResetState() else r.state, Timestamp(f))
            && (out.stop <==> r.outcome == Error)
            && out.delivery == (if r.outcome == Complete then Some(Delivery(r.state.image, Timestamp(f))) else None)
  {
  }

  /** A report with the last timestamp seen decodes on from the decoder it finds, with the same outcomes. */
  lemma PollContinues(p: Poll, f: seq<byte>)
    requires PollOk(p) && Accepted(f) && LengthFits(f) && Timestamp(f) == p.lastTimestamp
    ensures var r, out := Feed(p.dec, Nybbles(Payload(f))), PollStep(p, f);
            && out.poll == Poll(if r.outcome == Complete then ResetState() else r.state, Timestamp(f))
            && (out.stop <==> r.outcome == Error)
            && out.delivery == (if r.outcome == Complete then Some(Delivery(r.state.image, Timestamp(f))) else None)
  {
  }

  /** Reads that fit one after the other. */
  lemma ReadsFitAppend(a: seq<Read>, b: seq<Read>)
    requires ReadsFit(a) && ReadsFit(b)
    ensures ReadsFit(a + b)
  {
    forall i | 0 <= i < |a + b| && (a + b)[i].Received?
      ensures LengthFits((a + b)[i].bytes)
    {
      if i >= |a| {
        assert (a + b)[i] == b[i - |a|];
      }
    }
  }

  /** The polling loop over a series of reports followed by other reads: the first report, then the rest. */
  lemma PollingFrames(p: Poll, frames: seq<seq<byte>>, more: seq<Read>)
    requires PollOk(p) && frames != [] && AllImageReports(frames) && ReadsFit(more)
    ensures ReadsFit(AsReads(frames) + more) && ReadsFit(AsReads(frames[1..]) + more)
    ensures var r := PollStep(p, frames[0]);
            !r.stop ==> Polling(p, AsReads(frames) + more) == After(Printed(r.delivery), Polling(r.poll, AsReads(frames[1..]) + more))
  {
    assert ReadsFit(AsReads(frames));
    assert AllImageReports(frames[1..]) && ReadsFit(AsReads(frames[1..]));
    ReadsFitAppend(AsReads(frames), more);
    ReadsFitAppend(AsReads(frames[1..]), more);
    var all := AsReads(frames) + more;
    assert all[0] == Received(frames[0]) && all[1..] == AsReads(frames[1..]) + more;
    PollingFirst(p, all);
  }

  /**
   * A report that carries on the image held by the viewer's decoder: the
   * decoder is not reset and the report's nybbles continue the stream `pre`.
   */
  lemma PollCarriesOn(p: Poll, pre: seq<byte>, f: seq<byte>)
    requires Accepted(f) && LengthFits(f)
    requires Feed(ResetState(), pre).outcome == InProgress && p.dec == Feed(ResetState(), pre).state
    requires p.dec == ResetState() || p.lastTimestamp == Timestamp(f)
    ensures PollOk(p)
    ensures var ts, r := Timestamp(f), Feed(ResetState(), pre + Nybbles(Payload(f)));
            PollStep(p, f) ==
              match r.outcome
              case InProgress => PollOutcome(Poll(r.state, ts), false, None)
              case Complete => PollOutcome(Poll(ResetState(), ts), false, Some(Delivery(r.state.image, ts)))
              case Error => PollOutcome(Poll(r.state, ts), true, None)
  {
    FeedAppend(ResetState(), pre, Nybbles(Payload(f)));
  }

  /** A report before the last one keeps the viewer polling, with the image still in progress. */
  lemma PollReassembleNext(p: Poll, pre: seq<byte>, frames: seq<seq<byte>>, c: seq<byte>, ts: byte)
    requires Resumable(Session(p.dec, p.lastTimestamp, 0), pre, frames, c, ts) && |frames| >= 2
    ensures PollOk(p)
    ensures var r := PollStep(p, frames[0]);
            && !r.stop && r.delivery.None?
            && Resumable(Session(r.poll.dec, r.poll.lastTimestamp, 0), pre + Nybbles(Payload(frames[0])), frames[1..], c, ts)
  {
    var f, rest := frames[0], frames[1..];
    var q := pre + Nybbles(Payload(f));
    AllNybblesFirst(pre, frames);
    AllButLast(frames);
    AppendAssociates(pre, Nybbles(Payload(f)), AllNybbles(rest[..|rest| - 1]));
    assert q <= Encode(c);
    EncodedPrefixInProgress(c, q);
    PollCarriesOn(p, pre, f);
  }

  /** The last report of the series finishes the image: the viewer prints it and polls on. */
  lemma PollReassembleLast(p: Poll, pre: seq<byte>, f: seq<byte>, c: seq<byte>, more: seq<Read>)
    requires IsCodes(c) && Accepted(f) && LengthFits(f) && ReadsFit(more)
    requires Feed(ResetState(), pre).outcome == InProgress && p.dec == Feed(ResetState(), pre).state
    requires p.dec == ResetState() || p.lastTimestamp == Timestamp(f)
    requires Encode(c) <= pre + Nybbles(Payload(f))
    ensures PollOk(p) && ReadsFit(AsReads([f]) + more)
    ensures var ts := Timestamp(f);
            Polling(p, AsReads([f]) + more) == After([Delivery(Unpack(c), ts)], Polling(Poll(ResetState(), ts), more))
  {
    assert AllImageReports([f]);
    PollCarriesOn(p, pre, f);
    EncodedThenMore(c, pre + Nybbles(Payload(f)));
    PollingFrames(p, [f], more);
    assert [f][1..] == [];
    assert AsReads([]) + more == more;
  }

  /** The induction behind `PollReassembleImage`. */
  lemma {:induction false} PollReassembleFrom(p: Poll, pre: seq<byte>, frames: seq<seq<byte>>, c: seq<byte>, ts: byte, more: seq<Read>)
    requires Resumable(Session(p.dec, p.lastTimestamp, 0), pre, frames, c, ts) && ReadsFit(more)
    ensures PollOk(p) && ReadsFit(AsReads(frames) + more)
    ensures Polling(p, AsReads(frames) + more) == After([Delivery(Unpack(c), ts)], Polling(Poll(ResetState(), ts), more))
    decreases |frames|
  {
    var f, rest := frames[0], frames[1..];
    if rest == [] {
      assert frames == [f];
      assert pre + AllNybbles(frames) == pre + Nybbles(Payload(f)) by {
        AllNybblesFirst(pre, frames);
      }
      PollReassembleLast(p, pre, f, c, more);
    } else {
      PollReassembleNext(p, pre, frames, c, ts);
      PollingFrames(p, frames, more);
      var next := PollStep(p, f).poll;
      PollReassembleFrom(next, pre + Nybbles(Payload(f)), rest, c, ts, more);
      assert [] + Polling(next, AsReads(rest) + more).delivered == Polling(next, AsReads(rest) + more).delivered;
    }
  }

  /**
   * Reassembly in the viewer: from a reset decoder, or from any decoder when
   * the timestamp changes, a series of image reports with one timestamp whose
   * nybbles begin with the encoding of an image, the last report being the one
   * that finishes it, prints exactly that image with that timestamp, leaves a
   * reset decoder, and polling goes on with the reads that follow.
   */
  lemma PollReassembleImage(p: Poll, frames: seq<seq<byte>>, c: seq<byte>, ts: byte, more: seq<Read>)
    requires PollOk(p) && IsCodes(c) && frames != [] && AllImageReports(frames) && ReadsFit(more)
    requires forall i | 0 <= i < |frames| :: Timestamp(frames[i]) == ts
    requires p.dec == ResetState() || p.lastTimestamp != ts
    requires Encode(c) <= AllNybbles(frames)
    requires |AllNybbles(frames[..|frames| - 1])| < |Encode(c)|
    ensures ReadsFit(AsReads(frames) + more)
    ensures Polling(p, AsReads(frames) + more) == After([Delivery(Unpack(c), ts)], Polling(Poll(ResetState(), ts), more))
  {
    var reset := Poll(ResetState(), p.lastTimestamp);
    StartResumable(Session(reset.dec, reset.lastTimestamp, 0), frames, c, ts);
    PollReassembleFrom(reset, [], frames, c, ts, more);
    if p.dec != ResetState() {
      var all := AsReads(frames) + more;
      assert all[0] == Received(frames[0]);
      PollingIgnoresAbandoned(p, all);
    }
  }

  /** A report with a new timestamp makes the viewer forget whatever its decoder held. */
  lemma PollingIgnoresAbandoned(p: Poll, arrivals: seq<Read>)
    requires PollOk(p) && ReadsFit(arrivals) && arrivals != [] && arrivals[0].Received?
    requires Accepted(arrivals[0].bytes) && Timestamp(arrivals[0].bytes) != p.lastTimestamp
    ensures Polling(p, arrivals) == Polling(Poll(ResetState(), p.lastTimestamp), arrivals)
  {
    PollingFirst(p, arrivals);
    PollingFirst(Poll(ResetState(), p.lastTimestamp), arrivals);
  }

  /**
   * Puts the mouse into image mode: the library's mode switch, specialised to
   * the raw image mode.
   */
  method EnableMouseImageMode(received: seq<byte>, transferred: int, written: int)
    returns (rc: int, sent: Option<seq<byte>>)
    requires |received| == FeatureReportSize
    ensures rc == 0 || rc == -1
    ensures rc == 0 <==> transferred == FeatureReportSize && written == FeatureReportSize
    ensures sent.Some? <==> transferred == FeatureReportSize
    ensures sent.Some? ==> sent.value == ModeReport(received, RawImage)
  {
    var data := new byte[FeatureReportSize];
    forall k | 0 <= k < FeatureReportSize {
      data[k] := received[k];
    }
    if transferred != FeatureReportSize {
      return -1, None;
    }
    data[ModeFlagsOffset] := 0x06;
    sent := Some(data[..]);
    rc := if written == FeatureReportSize then 0 else -1;
  }

  /**
   * The viewer and the library decode the same way: from the same settled
   * decoder and timestamp, a report prints the image the library delivers and
   * leaves the same decoder behind while the image is in progress; a decoding
   * error ends the viewer where the library returns -1.
   */
  lemma PollStepMatchesFrameStep(ss: Session, data: seq<byte>)
    requires SessionOk(ss) && LengthFits(data) && Settled(ss.dec)
    ensures var lib := FrameStep(ss, data);
            var viewer := PollStep(Poll(ss.dec, ss.tsInProgress), data);
            && viewer.delivery == lib.delivery
            && (viewer.stop <==> lib.rc == Some(-1))
            && (lib.rc != Some(-1) ==> viewer.poll == Poll(lib.session.dec, lib.session.tsInProgress))
  {
    FrameStepSettled(ss, data);
  }
}
