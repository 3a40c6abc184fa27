/** The HTTP/2 DATA frame of draft-ietf-httpbis-http2-12, section 6.1, with
    the two-byte Pad High / Pad Low padding fields: the outgoing constructor
    that lays out the frame buffer, the flag properties, and the accessors
    that read padding and data back out of a frame buffer.

    The base frame (its preamble encoding of length, type, flags and stream
    id) is not part of this model: the flags, the stream id and the payload
    length are fields, and the preamble bytes of the buffer are never read. */
module DataFrames {
  import opened Common

  /** Constants.FramePreambleSize. Its value is not part of this model, so
      every property below holds for any preamble size. */
  const FramePreambleSize: nat

  /** One byte for Pad High and one for Pad Low. */
  const PadHighLowLength := 2

  /** The FrameFlags bits a DATA frame reads and sets. Their bit values are
      not part of this model: a flag set stands for the flags byte, `f in
      Flags` for `(Flags & f) == f` and `Flags + {f}` for `Flags |= f`. */
  datatype Flag = EndStream | EndSegment | PadLow | PadHigh | Compressed

  /** The total number of padding octets: Pad High times 256 plus Pad Low. */
  function PadLength(padHigh: byte, padLow: byte): nat {
    padHigh * 256 + padLow
  }

  /** The bytes the outgoing constructor writes after the preamble: with
      padding, the two pad fields, the data and PadLength zero bytes;
      without, the data alone. */
  function PayloadBytes(data: seq<byte>, padHigh: byte, padLow: byte): seq<byte> {
    if PadLength(padHigh, padLow) != 0 then
      [padHigh, padLow] + data + Zeros(PadLength(padHigh, padLow))
    else
      data
  }

  /** The flags the outgoing constructor leaves on a frame whose base starts
      with no flags set. */
  function ConstructedFlags(isEndStream: bool, padded: bool): set<Flag> {
    (if padded then {PadHigh, PadLow} else {}) + (if isEndStream then {EndStream} else {})
  }

  /** HasPadding: both pad flags are set. */
  predicate HasPaddingIn(flags: set<Flag>): (padded: bool)
    ensures padded <==> {PadHigh, PadLow} <= flags
  {
    PadHigh in flags && PadLow in flags
  }

  /** The PadHigh getter over a buffer and flags: the byte right after the
      preamble when the frame has padding, 0 otherwise. */
  function PadHighIn(buf: seq<byte>, flags: set<Flag>): (r: Result<byte>)
    ensures !HasPaddingIn(flags) ==> r == Ok(0)
    ensures HasPaddingIn(flags) ==> (r.Ok? <==> FramePreambleSize < |buf|)
    ensures HasPaddingIn(flags) && r.Ok? ==> r.value == buf[FramePreambleSize]
    ensures r.Throws? ==> r.ex == IndexOutOfRange
  {
    if !HasPaddingIn(flags) then Ok(0)
    else if FramePreambleSize < |buf| then Ok(buf[FramePreambleSize])
    else Throws(IndexOutOfRange)
  }

  /** The PadLow getter: the second byte after the preamble, or 0. */
  function PadLowIn(buf: seq<byte>, flags: set<Flag>): (r: Result<byte>)
    ensures !HasPaddingIn(flags) ==> r == Ok(0)
    ensures HasPaddingIn(flags) ==> (r.Ok? <==> FramePreambleSize + 1 < |buf|)
    ensures HasPaddingIn(flags) && r.Ok? ==> r.value == buf[FramePreambleSize + 1]
    ensures r.Throws? ==> r.ex == IndexOutOfRange
  {
    if !HasPaddingIn(flags) then Ok(0)
    else if FramePreambleSize + 1 < |buf| then Ok(buf[FramePreambleSize + 1])
    else Throws(IndexOutOfRange)
  }

  /** The Data getter AS WRITTEN: with padding it subtracts Pad Low from
      256 * Pad High, and it does not subtract the two pad-field bytes from
      the segment length. */
  function DataIn(buf: seq<byte>, flags: set<Flag>): (r: Result<seq<byte>>)
    ensures !HasPaddingIn(flags) ==> (r.Ok? <==> FramePreambleSize <= |buf|)
    ensures !HasPaddingIn(flags) && r.Ok? ==> r.value == buf[FramePreambleSize..]
    ensures HasPaddingIn(flags) && r.Ok? ==>
              && FramePreambleSize + PadHighLowLength <= |buf|
              && r.value <= buf[FramePreambleSize + PadHighLowLength..]
              && |r.value| == |buf| - FramePreambleSize
                              - (buf[FramePreambleSize] as int * 256 - buf[FramePreambleSize + 1] as int)
  {
    if HasPaddingIn(flags) then
      match PadHighIn(buf, flags)
      case Throws(e) => Throws(e)
      case Ok(h) =>
        match PadLowIn(buf, flags)
        case Throws(e) => Throws(e)
        case Ok(l) =>
          var padLength := h * 256 - l;
          Segment(buf, FramePreambleSize + PadHighLowLength, |buf| - FramePreambleSize - padLength)
    else
      Segment(buf, FramePreambleSize, |buf| - FramePreambleSize)
  }

  /** The Data getter as section 6.1 and the constructor's comment intend
      it: the segment after the pad fields, minus 256 * Pad High + Pad Low
      bytes of padding. A pad length larger than what follows the pad fields
      gives a negative count, which the ArraySegment constructor refuses. */
  function IntendedDataIn(buf: seq<byte>, flags: set<Flag>): (r: Result<seq<byte>>)
    ensures !HasPaddingIn(flags) ==> (r.Ok? <==> FramePreambleSize <= |buf|)
    ensures !HasPaddingIn(flags) && r.Ok? ==> r.value == buf[FramePreambleSize..]
    ensures HasPaddingIn(flags) && r.Ok? ==>
              FramePreambleSize + PadHighLowLength <= |buf| && r.value <= buf[FramePreambleSize + PadHighLowLength..]
    ensures HasPaddingIn(flags) && |buf| <= FramePreambleSize + 1 ==> r == Throws(IndexOutOfRange)
  {
    if HasPaddingIn(flags) then
      match PadHighIn(buf, flags)
      case Throws(e) => Throws(e)
      case Ok(h) =>
        match PadLowIn(buf, flags)
        case Throws(e) => Throws(e)
        case Ok(l) =>
          Segment(buf, FramePreambleSize + PadHighLowLength,
                  |buf| - FramePreambleSize - PadHighLowLength - PadLength(h, l))
    else
      Segment(buf, FramePreambleSize, |buf| - FramePreambleSize)
  }

  class DataFrame {
    var Buffer: array<byte>
    var Flags: set<Flag>
    var StreamId: int
    var PayloadLength: int

    /** For incoming frames: the frame whose preamble was read, with its
        buffer shared. */
    constructor Incoming(buffer: array<byte>, flags: set<Flag>, streamId: int, payloadLength: int)
      ensures Buffer == buffer && Flags == flags
      ensures StreamId == streamId && PayloadLength == payloadLength
    {
      Buffer, Flags := buffer, flags;
      StreamId, PayloadLength := streamId, payloadLength;
    }

    /** For outgoing frames: a fresh buffer holding the data, padded when
        PadLength(padHigh, padLow) is not zero. */
    constructor Outgoing(streamId: int, data: seq<byte>, isEndStream: bool, padHigh: byte := 0, padLow: byte := 0)
      ensures fresh(Buffer)
      ensures PayloadLength == if PadLength(padHigh, padLow) != 0
                               then PadHighLowLength + |data| + PadLength(padHigh, padLow)
                               else |data|
      ensures Buffer.Length == FramePreambleSize + PayloadLength
      ensures Buffer[FramePreambleSize..] == PayloadBytes(data, padHigh, padLow)
      ensures Flags == ConstructedFlags(isEndStream, PadLength(padHigh, padLow) != 0)
      ensures StreamId == streamId
    {
      var padLength := padHigh * 256 + padLow;
      if padLength != 0 {
        Buffer := new byte[FramePreambleSize + PadHighLowLength + |data| + padLength](_ => 0);
      } else {
        Buffer := new byte[FramePreambleSize + |data|](_ => 0);
      }
      Flags, StreamId, PayloadLength := {}, 0, 0;
      new;
      if padLength != 0 {
        SetFlag(PadHigh, true);
        SetFlag(PadLow, true);
        var _ := SetPadHigh(padHigh);
        var _ := SetPadLow(padLow);
        PayloadLength := PadHighLowLength + |data| + padLength;
        BlockCopy(data, FramePreambleSize + PadHighLowLength);
        assert Buffer[FramePreambleSize..] == [padHigh, padLow] + data + Zeros(padLength);
      } else {
        PayloadLength := |data|;
        BlockCopy(data, FramePreambleSize);
        assert Buffer[FramePreambleSize..] == data;
      }
      SetFlag(EndStream, isEndStream);
      StreamId := streamId;
    }

    /** System.Buffer.BlockCopy of `data` into the buffer at `offset`. */
    method BlockCopy(data: seq<byte>, offset: nat)
      requires offset + |data| <= Buffer.Length
      modifies Buffer
      ensures Buffer[..] == old(Buffer[..offset]) + data + old(Buffer[offset + |data|..])
    {
      forall k | 0 <= k < |data| {
        Buffer[offset + k] := data[k];
      }
      assert Buffer[..] == old(Buffer[..offset]) + data + old(Buffer[offset + |data|..]);
    }

    /** The setters of IsEndStream, IsEndSegment, IsPadLow, IsPadHigh and
        IsCompressed: `true` ORs the flag in, `false` leaves the flags as
        they are, so a set flag is never cleared. */
    method SetFlag(flag: Flag, value: bool)
      modifies this`Flags
      ensures Flags == if value then old(Flags) + {flag} else old(Flags)
    {
      if value {
        Flags := Flags + {flag};
      }
    }

    /** The getters of the five flag properties. */
    predicate IsSet(flag: Flag)
      reads this
    {
      flag in Flags
    }

    predicate HasPadding()
      reads this
    {
      HasPaddingIn(Flags)
    }

    /** The PadHigh setter: writes the byte right after the preamble. */
    method SetPadHigh(value: byte) returns (r: Result<()>)
      modifies Buffer
      ensures FramePreambleSize < Buffer.Length ==>
                r == Ok(()) && Buffer[..] == old(Buffer[..])[FramePreambleSize := value]
      ensures FramePreambleSize >= Buffer.Length ==>
                r == Throws(IndexOutOfRange) && Buffer[..] == old(Buffer[..])
    {
      if FramePreambleSize < Buffer.Length {
        Buffer[FramePreambleSize] := value;
        r := Ok(());
      } else {
        r := Throws(IndexOutOfRange);
      }
    }

    /** The PadLow setter: writes the second byte after the preamble. */
    method SetPadLow(value: byte) returns (r: Result<()>)
      modifies Buffer
      ensures FramePreambleSize + 1 < Buffer.Length ==>
                r == Ok(()) && Buffer[..] == old(Buffer[..])[FramePreambleSize + 1 := value]
      ensures FramePreambleSize + 1 >= Buffer.Length ==>
                r == Throws(IndexOutOfRange) && Buffer[..] == old(Buffer[..])
    {
      if FramePreambleSize + 1 < Buffer.Length {
        Buffer[FramePreambleSize + 1] := value;
        r := Ok(());
      } else {
        r := Throws(IndexOutOfRange);
      }
    }

    function PadHighValue(): Result<byte>
      reads this, Buffer
    {
      PadHighIn(Buffer[..], Flags)
    }

    function PadLowValue(): Result<byte>
      reads this, Buffer
    {
      PadLowIn(Buffer[..], Flags)
    }

    /** The Data getter, with the padding length and the pad fields
        subtracted as intended (DataIn models the getter as written). */
    function Data(): (r: Result<seq<byte>>)
      reads this, Buffer
      ensures !HasPaddingIn(Flags) ==> (r.Ok? <==> FramePreambleSize <= Buffer.Length)
      ensures !HasPaddingIn(Flags) && r.Ok? ==> r.value == Buffer[FramePreambleSize..]
      ensures HasPaddingIn(Flags) && r.Ok? ==>
                FramePreambleSize + PadHighLowLength <= Buffer.Length
                && r.value <= Buffer[FramePreambleSize + PadHighLowLength..]
    {
      IntendedDataIn(Buffer[..], Flags)
    }
  }

  /** A frame as the outgoing constructor leaves it: any preamble bytes,
      then the payload. */
  function Constructed(preamble: seq<byte>, data: seq<byte>, padHigh: byte, padLow: byte): seq<byte> {
    preamble + PayloadBytes(data, padHigh, padLow)
  }

  /** The flag properties read back what the constructor set: the padding
      flags and HasPadding exactly when the pad length is not zero, and
      IsEndStream exactly when asked for. */
  lemma ConstructedFlagsReadBack(isEndStream: bool, padHigh: byte, padLow: byte)
    ensures var flags := ConstructedFlags(isEndStream, PadLength(padHigh, padLow) != 0);
      && (HasPaddingIn(flags) <==> PadLength(padHigh, padLow) != 0)
      && (EndStream in flags <==> isEndStream)
      && EndSegment !in flags && Compressed !in flags
  {
  }

  /** The pad fields read back what the constructor was given: PadHigh and
      PadLow return the arguments on a padded frame and 0 on an unpadded
      one (whose arguments were both 0). */
  lemma {:induction false} PadFieldsRoundTrip(preamble: seq<byte>, data: seq<byte>, isEndStream: bool,
                                              padHigh: byte, padLow: byte)
    requires |preamble| == FramePreambleSize
    ensures var buf := Constructed(preamble, data, padHigh, padLow);
            var flags := ConstructedFlags(isEndStream, PadLength(padHigh, padLow) != 0);
      && PadHighIn(buf, flags) == Ok(padHigh)
      && PadLowIn(buf, flags) == Ok(padLow)
  {
    var buf := Constructed(preamble, data, padHigh, padLow);
    if PadLength(padHigh, padLow) != 0 {
      assert buf[FramePreambleSize] == padHigh && buf[FramePreambleSize + 1] == padLow;
    }
  }

  /** A frame carrying only one of the two pad flags is read as unpadded:
      both pad getters return 0 and Data is everything after the preamble. */
  lemma OnePadFlagReadsUnpadded(buf: seq<byte>, flags: set<Flag>)
    requires (PadHigh in flags) != (PadLow in flags)
    ensures !HasPaddingIn(flags)
    ensures PadHighIn(buf, flags) == Ok(0) && PadLowIn(buf, flags) == Ok(0)
    ensures DataIn(buf, flags) == IntendedDataIn(buf, flags)
    ensures |buf| >= FramePreambleSize ==> DataIn(buf, flags) == Ok(buf[FramePreambleSize..])
  {
    if |buf| >= FramePreambleSize {
      assert Segment(buf, FramePreambleSize, |buf| - FramePreambleSize).value == buf[FramePreambleSize..];
    }
  }

  /** The unpadded round trip: Data returns exactly the bytes given to the
      constructor. */
  lemma {:induction false} UnpaddedRoundTrip(preamble: seq<byte>, data: seq<byte>, isEndStream: bool)
    requires |preamble| == FramePreambleSize
    ensures DataIn(Constructed(preamble, data, 0, 0), ConstructedFlags(isEndStream, false)) == Ok(data)
  {
    var buf := Constructed(preamble, data, 0, 0);
    assert buf[FramePreambleSize..] == data;
    assert Segment(buf, FramePreambleSize, |buf| - FramePreambleSize).value == data;
  }

  /** What the Data getter as written returns on every padded frame the
      constructor builds: the data followed by 2 + 2 * Pad Low padding
      bytes when 256 * Pad High >= Pad Low + 2, and an exception from the
      ArraySegment constructor otherwise. It never returns the data. */
  lemma {:induction false} PaddedDataAsWritten(preamble: seq<byte>, data: seq<byte>, isEndStream: bool,
                                               padHigh: byte, padLow: byte)
    requires |preamble| == FramePreambleSize
    requires PadLength(padHigh, padLow) != 0
    ensures var r := DataIn(Constructed(preamble, data, padHigh, padLow), ConstructedFlags(isEndStream, true));
      && r == (if padLow + 2 <= 256 * padHigh then Ok(data + Zeros(2 + 2 * padLow)) else Throws(Argument))
      && r != Ok(data)
  {
    var buf := Constructed(preamble, data, padHigh, padLow);
    var flags := ConstructedFlags(isEndStream, true);
    var pad := PadLength(padHigh, padLow);
    PadFieldsRoundTrip(preamble, data, isEndStream, padHigh, padLow);
    assert |buf| == FramePreambleSize + 2 + |data| + pad;
    var count := |buf| - FramePreambleSize - (padHigh * 256 - padLow);
    assert count == 2 + |data| + 2 * padLow;
    if padLow + 2 <= 256 * padHigh {
      var off := FramePreambleSize + PadHighLowLength;
      assert buf[off..] == data + Zeros(pad);
      assert buf[off..off + count] == (data + Zeros(pad))[..count];
      assert (data + Zeros(pad))[..count] == data + Zeros(2 + 2 * padLow);
      assert |data + Zeros(2 + 2 * padLow)| != |data|;
    }
  }

  /** The smallest input that shows the defect: an empty DATA frame padded
      with a single byte (Pad High 0, Pad Low 1). The Data getter computes a
      segment of 4 bytes starting at the buffer's last byte, just after the
      two pad fields, and the ArraySegment constructor throws. */
  lemma PadLowOneThrows(preamble: seq<byte>)
    requires |preamble| == FramePreambleSize
    ensures |Constructed(preamble, [], 0, 1)| == FramePreambleSize + PadHighLowLength + 1
    ensures DataIn(Constructed(preamble, [], 0, 1), ConstructedFlags(false, true)) == Throws(Argument)
  {
    PaddedDataAsWritten(preamble, [], false, 0, 1);
  }

  /** The padded round trip the constructor's comment documents, proved of
      the intended Data getter: for every pad length (zero or not) it
      returns exactly the bytes given to the constructor. */
  lemma {:induction false} IntendedRoundTrip(preamble: seq<byte>, data: seq<byte>, isEndStream: bool,
                                             padHigh: byte, padLow: byte)
    requires |preamble| == FramePreambleSize
    ensures IntendedDataIn(Constructed(preamble, data, padHigh, padLow),
                           ConstructedFlags(isEndStream, PadLength(padHigh, padLow) != 0)) == Ok(data)
  {
    if PadLength(padHigh, padLow) != 0 {
      IntendedPaddedRoundTrip(preamble, data, isEndStream, padHigh, padLow);
    } else {
      assert padHigh == 0 && padLow == 0;
      UnpaddedRoundTrip(preamble, data, isEndStream);
    }
  }

  /** The padded half of IntendedRoundTrip. */
  lemma IntendedPaddedRoundTrip(preamble: seq<byte>, data: seq<byte>, isEndStream: bool,
                                padHigh: byte, padLow: byte)
    requires |preamble| == FramePreambleSize
    requires PadLength(padHigh, padLow) != 0
    ensures IntendedDataIn(Constructed(preamble, data, padHigh, padLow), ConstructedFlags(isEndStream, true)) == Ok(data)
  {
    var buf := Constructed(preamble, data, padHigh, padLow);
    var pad := PadLength(padHigh, padLow);
    var off := FramePreambleSize + PadHighLowLength;
    assert buf == preamble + [padHigh, padLow] + data + Zeros(pad);
    assert buf[FramePreambleSize] == padHigh && buf[FramePreambleSize + 1] == padLow;
    IntendedDataLength(buf, ConstructedFlags(isEndStream, true));
    assert buf[off..] == data + Zeros(pad);
    assert (data + Zeros(pad))[..|data|] == data;
  }

  /** Padding integrity of the intended getter on any incoming buffer with
      both pad flags: the data is the payload (everything after the
      preamble) minus the two pad fields and 256 * Pad High + Pad Low
      padding bytes, and a pad length that leaves less than nothing is
      refused. */
  lemma IntendedDataLength(buf: seq<byte>, flags: set<Flag>)
    requires HasPaddingIn(flags)
    requires FramePreambleSize + PadHighLowLength <= |buf|
    ensures var h := buf[FramePreambleSize];
            var l := buf[FramePreambleSize + 1];
            var remaining := |buf| - FramePreambleSize - PadHighLowLength - PadLength(h, l);
      && (IntendedDataIn(buf, flags).Ok? <==> remaining >= 0)
      && (remaining >= 0 ==> IntendedDataIn(buf, flags) ==
                               Ok(buf[FramePreambleSize + PadHighLowLength..][..remaining]))
  {
    var off := FramePreambleSize + PadHighLowLength;
    var remaining := |buf| - off - PadLength(buf[FramePreambleSize], buf[FramePreambleSize + 1]);
    if remaining >= 0 {
      assert Segment(buf, off, remaining).value == buf[off..][..remaining];
    }
  }
}
