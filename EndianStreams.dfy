/** The byte-level view of the big-endian stream a screen.shot is read from and
    written to: a resizable in-memory byte buffer (a .NET MemoryStream) accessed
    through absolute-offset reads and writes of blocks, ASCII text and 32-bit
    big-endian integers. Each access is given the offset it starts at: the
    seek before it, or, for the image read that follows the size read without
    a seek of its own, the offset where the four bytes of that Int32 end. */
module EndianStreams {

  /** An unsigned 8-bit value, as .NET's byte. */
  type byte = b: int | 0 <= b < 0x100

  /** A signed 32-bit value, as .NET's Int32. */
  type int32 = x: int | -0x8000_0000 <= x < 0x8000_0000

  const TWO_TO_32: int := 0x1_0000_0000

  function Max(a: int, b: int): int { if a < b then b else a }

  /** The value unchecked Int32 arithmetic produces for the mathematical value x:
      x itself when it fits, otherwise x wrapped around modulo 2^32. */
  function WrapInt32(x: int): (r: int32)
    ensures (x - r) % TWO_TO_32 == 0
    ensures -0x8000_0000 <= x < 0x8000_0000 ==> r == x
  {
    (x + 0x8000_0000) % TWO_TO_32 - 0x8000_0000
  }

  /** The four bytes WriteInt32 emits on a big-endian stream: two's complement,
      most significant byte first. */
  function EncodeInt32(x: int32): (r: seq<byte>)
    ensures |r| == 4
    ensures (x < 0) == (r[0] >= 0x80)
  {
    var u := if x < 0 then x + TWO_TO_32 else x;
    [u / 0x100_0000, u / 0x1_0000 % 0x100, u / 0x100 % 0x100, u % 0x100]
  }

  /** The Int32 ReadInt32 yields from four bytes of a big-endian stream. */
  function DecodeInt32(b: seq<byte>): (x: int32)
    requires |b| == 4
    ensures (x < 0) == (b[0] >= 0x80)
  {
    var u := b[0] as int * 0x100_0000 + b[1] as int * 0x1_0000 + b[2] as int * 0x100 + b[3] as int;
    if u < 0x8000_0000 then u else u - TWO_TO_32
  }

  /** Reading back an Int32 that was written gives the same value. */
  lemma DecodeEncodeInt32(x: int32)
    ensures DecodeInt32(EncodeInt32(x)) == x
  {
    var u := if x < 0 then x + TWO_TO_32 else x;
    var b := EncodeInt32(x);
    assert u == b[0] as int * 0x100_0000 + b[1] as int * 0x1_0000 + b[2] as int * 0x100 + b[3] as int;
  }

  /** Writing back an Int32 that was read gives the same four bytes. */
  lemma EncodeDecodeInt32(b: seq<byte>)
    requires |b| == 4
    ensures EncodeInt32(DecodeInt32(b)) == b
  {
    var u := b[0] as int * 0x100_0000 + b[1] as int * 0x1_0000 + b[2] as int * 0x100 + b[3] as int;
    var x := DecodeInt32(b);
    assert (if x < 0 then x + TWO_TO_32 else x) == u;
    assert u / 0x100_0000 == b[0];
    assert u / 0x1_0000 == b[0] as int * 0x100 + b[1] as int;
    assert u / 0x100 == b[0] as int * 0x1_0000 + b[1] as int * 0x100 + b[2] as int;
  }

  /** n zero bytes. */
  function Zeros(n: nat): (r: seq<byte>)
    ensures |r| == n
  {
    seq(n, _ => 0)
  }

  /** The contents after MemoryStream.SetLength(n): cut to n bytes, or extended
      with zero bytes up to n. */
  function Resized(s: seq<byte>, n: nat): (r: seq<byte>)
    ensures |r| == n
    ensures forall i | 0 <= i < n :: r[i] == if i < |s| then s[i] else 0
  {
    if n <= |s| then s[..n] else s + Zeros(n - |s|)
  }

  /** The contents after seeking to p and writing the block b: b replaces the
      bytes at [p, p + |b|); a write that runs past the end grows the stream,
      and a gap between the old end and p reads as zeros. */
  function Overwrite(s: seq<byte>, p: nat, b: seq<byte>): (r: seq<byte>)
    ensures |r| == Max(|s|, p + |b|)
    ensures r[p..p + |b|] == b
    ensures forall i | 0 <= i < p :: r[i] == if i < |s| then s[i] else 0
    ensures forall i | p + |b| <= i < |r| :: r[i] == s[i]
  {
    var t := if p + |b| <= |s| then s else Resized(s, p + |b|);
    t[..p] + b + t[p + |b|..]
  }

  /** The byte at i, or zero past the end: what a stream grown over i would hold there. */
  function At(s: seq<byte>, i: nat): byte {
    if i < |s| then s[i] else 0
  }

  /** After a write, a byte is the written one inside the block and the old one
      (zero where the stream was shorter) everywhere else. */
  lemma OverwriteAt(s: seq<byte>, p: nat, b: seq<byte>, i: nat)
    ensures At(Overwrite(s, p, b), i) == if p <= i < p + |b| then b[i - p] else At(s, i)
  {
    var r := Overwrite(s, p, b);
    if p <= i < p + |b| {
      assert r[i] == r[p..p + |b|][i - p];
    }
  }

  /** The bytes from offset off to the end of the stream (none when off lies past it). */
  function Tail(s: seq<byte>, off: nat): (r: seq<byte>)
    ensures off <= |s| ==> |r| == |s| - off && forall i | 0 <= i < |r| :: r[i] == s[off + i]
    ensures off > |s| ==> r == []
  {
    if off <= |s| then s[off..] else []
  }

  /** The character .NET's ASCII decoding gives a byte: the byte itself below
      0x80, '?' otherwise. */
  function AsciiChar(b: byte): (c: char)
    ensures c == '?' || (c as int == b && b < 0x80)
    ensures b < 0x80 ==> c as int == b
  {
    if b < 0x80 then b as char else '?'
  }

  /** ReadAscii(n) at offset off: the n bytes there decoded as ASCII, or as many
      as the stream still holds when it ends first. */
  function ReadAscii(s: seq<byte>, off: nat, n: nat): (r: string)
    ensures off + n <= |s| ==> |r| == n
    ensures off + n > |s| ==> |r| < n || n == 0
    ensures forall i | 0 <= i < |r| :: off + i < |s| && r[i] == AsciiChar(s[off + i])
  {
    var avail := if off + n <= |s| then n else if off <= |s| then |s| - off else 0;
    seq(avail, i requires 0 <= i < avail => AsciiChar(s[off + i]))
  }

  /** A MemoryStream: its contents and whether it is still open. */
  class MemoryStream {
    var data: seq<byte>
    var isOpen: bool

    constructor (contents: seq<byte>)
      ensures data == contents && isOpen
    {
      data := contents;
      isOpen := true;
    }

    /** SeekTo(offset) followed by WriteBlock(block). */
    method WriteBlock(offset: nat, block: seq<byte>)
      requires isOpen
      modifies this
      ensures isOpen && data == Overwrite(old(data), offset, block)
    {
      data := Overwrite(data, offset, block);
    }

    /** SeekTo(offset) followed by WriteInt32(x) on a big-endian stream. */
    method WriteInt32(offset: nat, x: int32)
      requires isOpen
      modifies this
      ensures isOpen && data == Overwrite(old(data), offset, EncodeInt32(x))
    {
      WriteBlock(offset, EncodeInt32(x));
    }

    /** SetLength(n): truncates or zero-extends the contents to n bytes. */
    method SetLength(n: nat)
      requires isOpen
      modifies this
      ensures isOpen && data == Resized(old(data), n)
    {
      data := Resized(data, n);
    }

    method Close()
      modifies this
      ensures !isOpen && data == old(data)
    {
      isOpen := false;
    }
  }
}
