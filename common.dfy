/** Values shared by the models of the framing, TLS and adapter code: bytes,
    optional values, and the .NET exceptions the modelled code can raise. */
module Common {

  /** An octet, as System.Byte. */
  type byte = b: int | 0 <= b < 256

  datatype Option<+T> = None | Some(value: T)

  /** The .NET exceptions that the modelled members raise, either explicitly
      or through the runtime (array indexing, ArraySegment, BlockCopy). */
  datatype Exception =
    | IndexOutOfRange       // array index outside the array
    | ArgumentOutOfRange    // negative offset or count
    | Argument              // offset + count past the end of an array
    | Overflow              // array allocated with a negative length
    | NullReference         // member access on null
    | ObjectDisposed        // operation on a disposed controller
    | SocketError           // System.Net.Sockets.SocketException
    | SslError              // Org.Mentalis.Security.Ssl.SslException

  /** The value a .NET member returns, or the exception it throws instead. */
  datatype Result<+T> = Ok(value: T) | Throws(ex: Exception)

  /** A sequence of `n` zero bytes: the contents of a freshly allocated array. */
  function Zeros(n: nat): (z: seq<byte>)
    ensures |z| == n && forall i :: 0 <= i < n ==> z[i] == 0
  {
    seq(n, _ => 0)
  }

  function Min(a: int, b: int): int {
    if a <= b then a else b
  }

  /** A value of System.Int32. */
  predicate IsInt32(x: int) {
    -0x8000_0000 <= x < 0x8000_0000
  }

  /** `x` wrapped to System.Int32, as unchecked C# arithmetic does. */
  function Wrap32(x: int): (r: int)
    ensures IsInt32(r)
    ensures (x - r) % 0x1_0000_0000 == 0
    ensures IsInt32(x) ==> r == x
  {
    (x + 0x8000_0000) % 0x1_0000_0000 - 0x8000_0000
  }

  /** The argument checks of Buffer.BlockCopy(src, srcOffset, dst,
      dstOffset, count): a negative offset or count is ArgumentOutOfRange,
      a copy running past the end of either array is Argument. */
  function BlockCopyCheck(srcLen: nat, srcOffset: int, dstLen: nat, dstOffset: int, count: int): (r: Option<Exception>)
    ensures r.None? <==> && 0 <= srcOffset && 0 <= dstOffset && 0 <= count
                         && srcOffset + count <= srcLen && dstOffset + count <= dstLen
    ensures r.Some? ==> (r.value == ArgumentOutOfRange <==> srcOffset < 0 || dstOffset < 0 || count < 0)
    ensures r.Some? ==> r.value == ArgumentOutOfRange || r.value == Argument
  {
    if srcOffset < 0 || dstOffset < 0 || count < 0 then Some(ArgumentOutOfRange)
    else if srcLen - srcOffset < count || dstLen - dstOffset < count then Some(Argument)
    else None
  }

  /** The segment `count` bytes long at `offset` in `buf`, as the
      ArraySegment<byte> constructor checks it: a negative offset or count
      is ArgumentOutOfRange, a segment running past the end is Argument. */
  function Segment(buf: seq<byte>, offset: int, count: int): (r: Result<seq<byte>>)
    ensures r.Ok? <==> 0 <= offset && 0 <= count && offset + count <= |buf|
    ensures r.Ok? ==> r.value == buf[offset..offset + count]
  {
    if offset < 0 || count < 0 then Throws(ArgumentOutOfRange)
    else if |buf| - offset < count then Throws(Argument)
    else Ok(buf[offset..offset + count])
  }
}
