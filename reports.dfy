/**
 * The envelope of an image transfer: a 32-byte HID input report with ID 0x27,
 * a length byte that counts the timestamp byte and the useful data bytes, four
 * magic bytes, the timestamp, and up to 25 bytes of compressed image data.
 * Each data byte carries two nybbles, low nybble first.
 */
module Reports {
  import opened Types

  const ReportSize: nat := 32
  const ImageReportId: byte := 0x27
  /** Offsets of the length byte, the timestamp byte and the first data byte. */
  const LengthOffset: nat := 1
  const TimestampOffset: nat := 6
  const DataOffset: nat := 7
  /** Room for data bytes in one report. */
  const DataCapacity: nat := ReportSize - DataOffset

  /** A read is looked at only when it is exactly one report with the image ID. */
  predicate Accepted(data: seq<byte>) {
    |data| == ReportSize && data[0] == ImageReportId
  }

  /**
   * The length byte of an accepted report stays within the report: at most
   * the timestamp byte and the 25 data bytes.
   */
  predicate LengthFits(data: seq<byte>) {
    Accepted(data) ==> data[LengthOffset] <= DataCapacity + 1
  }

  function Timestamp(data: seq<byte>): byte
    requires Accepted(data)
  {
    data[TimestampOffset]
  }

  /** The number of data bytes a length byte announces: one less, and none for a length of 0. */
  function DataLength(length: byte): (n: nat)
    ensures n < length || n == length == 0
    ensures length > 0 ==> n + 1 == length
  {
    if length == 0 then 0 else length - 1
  }

  /** The useful data bytes of an accepted report. */
  function Payload(data: seq<byte>): (p: seq<byte>)
    requires Accepted(data) && LengthFits(data)
    ensures |p| == DataLength(data[LengthOffset]) && |p| <= DataCapacity
    ensures forall t | 0 <= t < |p| :: p[t] == data[DataOffset + t]
  {
    data[DataOffset..DataOffset + DataLength(data[LengthOffset])]
  }

  /** The nybble stream of some data bytes: for each byte its low nybble, then its high nybble. */
  function Nybbles(p: seq<byte>): (ns: seq<byte>)
    ensures |ns| == 2 * |p|
    ensures forall k | 0 <= k < |ns| :: ns[k] < 16
  {
    if p == [] then []
    else
      var last := p[|p| - 1];
      Nybbles(p[..|p| - 1]) + [last % 16, last / 16]
  }

  /** Byte i of the data becomes nybbles 2i (its low half) and 2i + 1 (its high half). */
  lemma {:induction false} NybbleOrder(p: seq<byte>)
    ensures forall i | 0 <= i < |p| :: Nybbles(p)[2 * i] == p[i] % 16 && Nybbles(p)[2 * i + 1] == p[i] / 16
    decreases |p|
  {
    if p != [] {
      var init := p[..|p| - 1];
      NybbleOrder(init);
      forall i | 0 <= i < |p|
        ensures Nybbles(p)[2 * i] == p[i] % 16 && Nybbles(p)[2 * i + 1] == p[i] / 16
      {
        if i < |init| {
          assert p[i] == init[i];
        }
      }
    }
  }

  /** Two nybbles per byte, low nybble first: the inverse of `Nybbles`. */
  function Pack(ns: seq<byte>): (p: seq<byte>)
    requires |ns| % 2 == 0
    requires forall k | 0 <= k < |ns| :: ns[k] < 16
    ensures |p| * 2 == |ns|
  {
    if ns == [] then []
    else Pack(ns[..|ns| - 2]) + [ns[|ns| - 2] + 16 * ns[|ns| - 1]]
  }

  /** Splitting the bytes splits their nybble stream at twice the position. */
  lemma {:induction false} NybblesAppend(a: seq<byte>, b: seq<byte>)
    ensures Nybbles(a + b) == Nybbles(a) + Nybbles(b)
    decreases |b|
  {
    if b == [] {
      assert a + b == a;
    } else {
      var b' := b[..|b| - 1];
      assert (a + b)[..|a + b| - 1] == a + b';
      NybblesAppend(a, b');
    }
  }

  /** The nybble stream of some data bytes around byte t. */
  lemma NybblesAround(p: seq<byte>, t: nat)
    requires t < |p|
    ensures Nybbles(p[..t + 1]) == Nybbles(p[..t]) + [p[t] % 16, p[t] / 16]
    ensures Nybbles(p) == Nybbles(p[..t]) + ([p[t] % 16, p[t] / 16] + Nybbles(p[t + 1..]))
  {
    var pair := [p[t] % 16, p[t] / 16];
    assert Nybbles(p[..t + 1]) == Nybbles(p[..t]) + pair by {
      PrefixOfPrefix(p, t, t + 1);
    }
    assert Nybbles(p) == Nybbles(p[..t + 1]) + Nybbles(p[t + 1..]) by {
      SplitAt(p, t + 1);
      NybblesAppend(p[..t + 1], p[t + 1..]);
    }
    AppendAssociates(Nybbles(p[..t]), pair, Nybbles(p[t + 1..]));
  }

  /** A byte is its low nybble plus sixteen times its high nybble. */
  lemma SplitByte(b: byte)
    ensures b % 16 + 16 * (b / 16) == b
  {
  }

  /** Joining two nybbles into a byte and splitting it again gives them back. */
  lemma JoinByte(lo: byte, hi: byte)
    requires lo < 16 && hi < 16
    ensures (lo + 16 * hi) % 16 == lo && (lo + 16 * hi) / 16 == hi
  {
  }

  /** Packing the nybbles of some bytes gives the bytes back. */
  lemma {:induction false} PackNybbles(p: seq<byte>)
    ensures Pack(Nybbles(p)) == p
    decreases |p|
  {
    if p != [] {
      var init, last := p[..|p| - 1], p[|p| - 1];
      var ns := Nybbles(p);
      assert ns[..|ns| - 2] == Nybbles(init) && ns[|ns| - 2] == last % 16 && ns[|ns| - 1] == last / 16 by {
        assert ns == Nybbles(init) + [last % 16, last / 16];
      }
      PackNybbles(init);
      SplitByte(last);
      assert Pack(ns) == init + [last];
      assert p == init + [last];
    }
  }

  /** Splitting the packed bytes of an even-length nybble stream back into nybbles gives the stream. */
  lemma {:induction false} NybblesPack(ns: seq<byte>)
    requires |ns| % 2 == 0
    requires forall k | 0 <= k < |ns| :: ns[k] < 16
    ensures Nybbles(Pack(ns)) == ns
    decreases |ns|
  {
    if ns != [] {
      var init, lo, hi := ns[..|ns| - 2], ns[|ns| - 2], ns[|ns| - 1];
      var p := Pack(ns);
      var b := lo + 16 * hi;
      assert p == Pack(init) + [b];
      assert p[..|p| - 1] == Pack(init);
      NybblesPack(init);
      JoinByte(lo, hi);
      assert Nybbles(p) == init + [lo, hi];
      assert ns == init + [lo, hi];
    }
  }
}
