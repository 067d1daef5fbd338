/**
 * The decoder fields of a device as mutable state: the write cursor, the run
 * flag, a 181-byte buffer of pixel codes and a 195-byte image, updated in
 * place one nybble at a time.  Each method is proved against the value-level
 * specification in module Codec.
 */
module Decoding {
  import opened Types
  import opened Grid
  import opened Codec
  import opened Reports

  class Decoder {
    var bufIndex: int
    var runPending: bool
    const partialImage: array<byte>
    const image: array<byte>

    ghost predicate Valid()
      reads this, partialImage, image
    {
      && partialImage.Length == CodeCount && image.Length == CellCount && partialImage != image
      && 0 <= bufIndex <= CodeCount
      && forall k | 0 <= k < CodeCount :: partialImage[k] < 15
    }

    /** The decoder fields as a value. */
    ghost function State(): (s: DecoderState)
      reads this, partialImage, image
      requires Valid()
      ensures Wf(s)
    {
      DecoderState(bufIndex, runPending, partialImage[..], image[..])
    }

    /** A freshly allocated device is zero-filled. */
    constructor ()
      ensures Valid() && fresh(partialImage) && fresh(image)
      ensures State() == ResetState()
    {
      bufIndex := 0;
      runPending := false;
      partialImage := new byte[CodeCount](_ => 0);
      image := new byte[CellCount](_ => 0);
      new;
      assert partialImage[..] == ResetState().partial;
      assert image[..] == ResetState().image;
    }

    /** Zeroes the cursor, the run flag and both buffers. */
    method Reset()
      requires Valid()
      modifies this, partialImage, image
      ensures Valid()
      ensures State() == ResetState()
    {
      bufIndex := 0;
      runPending := false;
      forall k | 0 <= k < partialImage.Length {
        partialImage[k] := 0;
      }
      forall k | 0 <= k < image.Length {
        image[k] := 0;
      }
      assert partialImage[..] == ResetState().partial;
      assert image[..] == ResetState().image;
    }

    /**
     * Feeds one nybble to the decoder: a literal code, the escape that
     * announces a run, or the length of an announced run.  Reaching the end of
     * the buffer unpacks the image.
     */
    method ProcessNybble(nybble: byte) returns (res: Outcome)
      requires Valid() && bufIndex < CodeCount
      modifies this, partialImage, image
      ensures Valid()
      ensures (State(), res) == Step(old(State()), nybble)
    {
      ghost var s := State();
      if nybble >= 16 {
        return Error;
      }
      if runPending {
        if bufIndex + nybble + MinRun > CodeCount {
          return Error;
        }
        var i := 0;
        while i < nybble + MinRun
          invariant 0 <= i <= nybble + MinRun
          invariant bufIndex == s.bufIndex + i && runPending
          invariant forall k | 0 <= k < CodeCount ::
            partialImage[k] == if s.bufIndex <= k < bufIndex then 0 else s.partial[k]
          invariant image[..] == s.image
        {
          partialImage[bufIndex] := 0;
          bufIndex := bufIndex + 1;
          i := i + 1;
        }
        runPending := false;
        assert partialImage[..] == ZeroRun(s.partial, s.bufIndex, nybble + MinRun);
      } else if nybble == RunEscape {
        runPending := true;
      } else {
        partialImage[bufIndex] := nybble;
        bufIndex := bufIndex + 1;
      }
      if bufIndex == CodeCount {
        UnpackImage();
        return Complete;
      }
      return InProgress;
    }

    /** Feeds the two nybbles of a data byte, low nybble first, stopping once the image completes or fails. */
    method ProcessByte(b: byte) returns (res: Outcome)
      requires Valid() && bufIndex < CodeCount
      modifies this, partialImage, image
      ensures Valid()
      ensures var r := Feed(old(State()), [b % 16, b / 16]); State() == r.state && res == r.outcome
    {
      ghost var s := State();
      FeedFirst(s, b % 16, [b / 16]);
      assert [b % 16] + [b / 16] == [b % 16, b / 16];
      res := ProcessNybble(b % 16);
      if res == InProgress {
        ghost var s1 := State();
        FeedFirst(s1, b / 16, []);
        assert [b / 16] + [] == [b / 16];
        res := ProcessNybble(b / 16);
      }
    }

    /**
     * Feeds the data bytes of an image report in order, stopping at the byte
     * where the image completes or fails.
     */
    method ProcessData(data: seq<byte>) returns (res: Outcome)
      requires Valid() && bufIndex < CodeCount
      requires Accepted(data) && LengthFits(data)
      modifies this, partialImage, image
      ensures Valid()
      ensures var r := Feed(old(State()), Nybbles(Payload(data))); State() == r.state && res == r.outcome
    {
      ghost var start := State();
      ghost var payload := Payload(data);
      var count: int := data[LengthOffset] as int - 1;
      var t := 0;
      res := InProgress;
      while t < count && res == InProgress
        invariant 0 <= t <= |payload| && (count > 0 ==> t <= count)
        invariant Valid()
        invariant res == InProgress ==> Feed(start, Nybbles(payload[..t])) == FeedResult(State(), InProgress, [])
        invariant res != InProgress ==>
                    var r := Feed(start, Nybbles(payload)); State() == r.state && res == r.outcome
      {
        FeedNextByte(start, payload, t);
        res := ProcessByte(data[DataOffset + t]);
        t := t + 1;
      }
      if res == InProgress {
        assert payload[..t] == payload;
      }
    }

    /**
     * Unpacks the 181 codes onto the grid: the image is cleared, then the
     * active columns of each row take the next codes in order, through the
     * grey table.
     */
    method UnpackImage()
      requires Valid()
      modifies image
      ensures Valid()
      ensures image[..] == Unpack(partialImage[..])
    {
      ghost var codes := partialImage[..];
      forall k | 0 <= k < image.Length {
        image[k] := 0;
      }
      var i := 0;
      for row := 0 to Rows
        invariant Valid() && partialImage[..] == codes
        invariant i == RowOffset(row)
        invariant forall k | 0 <= k < CellIndex(row, 0) :: image[k] == PixelAt(codes, k)
        invariant forall k | CellIndex(row, 0) <= k < CellCount :: image[k] == 0
      {
        i := UnpackRow(row, i, codes);
      }
      PixelAtIsUnpack(image[..], codes);
    }

    /**
     * Fills one row of the image, reading its codes from the packed buffer
     * from the running index `start` on; returns the running index after them.
     */
    method UnpackRow(row: nat, start: nat, ghost codes: seq<byte>) returns (next: nat)
      requires Valid() && row < Rows && codes == partialImage[..]
      requires start == RowOffset(row)
      requires forall k | CellIndex(row, 0) <= k < CellCount :: image[k] == 0
      modifies image
      ensures Valid() && partialImage[..] == codes && next == RowOffset(row + 1)
      ensures forall k | 0 <= k < CellIndex(row, 0) :: image[k] == old(image[k])
      ensures forall k | CellIndex(row, 0) <= k < CellIndex(row + 1, 0) :: image[k] == PixelAt(codes, k)
      ensures forall k | CellIndex(row + 1, 0) <= k < CellCount :: image[k] == 0
    {
      RowOffsetClosedForm(row);
      RowOffsetClosedForm(row + 1);
      var startCol, endCol := RowStart(row), RowEnd(row);
      var i := start;
      InactiveCellsAreBlack(codes, row, 0, startCol);
      for col := startCol to endCol + 1
        invariant i == RowOffset(row) + col - startCol
        invariant forall k | 0 <= k < CellIndex(row, 0) :: image[k] == old(image[k])
        invariant forall k | CellIndex(row, 0) <= k < CellIndex(row, col) :: image[k] == PixelAt(codes, k)
        invariant forall k | CellIndex(row, col) <= k < CellCount :: image[k] == 0
      {
        ActivePixelAt(codes, row, col);
        image[CellIndex(row, col)] := DecoderTable[partialImage[i]];
        i := i + 1;
      }
      InactiveCellsAreBlack(codes, row, endCol + 1, Cols);
      next := i;
    }
  }

  /** The grey level at a flat position of the image buffer. */
  function PixelAt(codes: seq<byte>, k: nat): byte
    requires IsCodes(codes) && k < CellCount
  {
    Pixel(codes, k / Cols, k % Cols)
  }

  lemma CellIndexInverse(row: nat, col: nat)
    requires col < Cols
    ensures CellIndex(row, col) / Cols == row && CellIndex(row, col) % Cols == col
  {
  }

  /** The pixel of an active cell is the decoded code at the running index of its row. */
  lemma ActivePixelAt(codes: seq<byte>, row: nat, col: nat)
    requires IsCodes(codes) && Active(row, col)
    ensures RowOffset(row) + col - RowStart(row) < CodeCount
    ensures PixelAt(codes, CellIndex(row, col)) == DecoderTable[codes[RowOffset(row) + col - RowStart(row)]]
  {
    CellIndexInverse(row, col);
    assert CodeIndex(row, col) == RowOffset(row) + col - RowStart(row);
  }

  /** Cells of a row outside its active range are black. */
  lemma InactiveCellsAreBlack(codes: seq<byte>, row: nat, from: nat, to: nat)
    requires IsCodes(codes) && row < Rows && from <= to <= Cols
    requires to <= RowStart(row) || RowEnd(row) < from
    ensures forall k | CellIndex(row, from) <= k < CellIndex(row, to) :: PixelAt(codes, k) == 0
  {
    forall k | CellIndex(row, from) <= k < CellIndex(row, to) ensures PixelAt(codes, k) == 0 {
      CellIndexInverse(row, k - CellIndex(row, 0));
    }
  }

  lemma PixelAtIsUnpack(img: seq<byte>, codes: seq<byte>)
    requires IsCodes(codes) && |img| == CellCount
    requires forall k | 0 <= k < CellCount :: img[k] == PixelAt(codes, k)
    ensures img == Unpack(codes)
  {
  }

  /**
   * Feeding the data bytes one at a time: byte t, fed to the decoder left by
   * the bytes before it, either keeps the image in progress or decides the
   * outcome of the whole report.
   */
  lemma FeedNextByte(start: DecoderState, payload: seq<byte>, t: nat)
    requires Wf(start) && start.bufIndex < CodeCount && t < |payload|
    requires Feed(start, Nybbles(payload[..t])).outcome == InProgress
    ensures var r := Feed(Feed(start, Nybbles(payload[..t])).state, [payload[t] % 16, payload[t] / 16]);
            if r.outcome == InProgress then Feed(start, Nybbles(payload[..t + 1])) == r
            else Feed(start, Nybbles(payload)).state == r.state && Feed(start, Nybbles(payload)).outcome == r.outcome
  {
    var pre, pair, post := Nybbles(payload[..t]), [payload[t] % 16, payload[t] / 16], Nybbles(payload[t + 1..]);
    NybblesAround(payload, t);
    FeedAppend(start, pre, pair + post);
    FeedAppend(start, pre, pair);
    var s := Feed(start, pre).state;
    if Feed(s, pair).outcome != InProgress {
      FeedStops(s, pair, post);
    }
  }
}
