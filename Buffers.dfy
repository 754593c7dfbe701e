/** The parts of Node's `Buffer` that the StarDict decoder relies on: indexing,
    the clamping `slice`, `readUInt32BE` (which throws when fewer than four
    bytes remain), the 'ascii' decoding of a single tag byte, and the
    zero-terminator scans written out as `while` loops in the decoder. */
module Buffers {
  import opened Wrappers

  type byte = b: int | 0 <= b < 0x100
  type u32 = n: int | 0 <= n < 0x1_0000_0000

  /** The RangeError Node raises for a read past the end of a buffer. */
  datatype Error = OutOfRange(offset: int, length: nat)

  /** The four bytes that encode `n` in network (big-endian) byte order,
      as `Buffer.writeUInt32BE` lays them out. */
  function WriteU32BE(n: u32): (r: seq<byte>)
    ensures |r| == 4
  {
    [n / 0x100_0000, n / 0x1_0000 % 0x100, n / 0x100 % 0x100, n % 0x100]
  }

  /** The big-endian unsigned 32-bit number stored at `buf[p..p+4]`. */
  function ReadU32BE(buf: seq<byte>, p: nat): u32
    requires p + 4 <= |buf|
  {
    buf[p] as int * 0x100_0000 + buf[p + 1] as int * 0x1_0000 + buf[p + 2] as int * 0x100 + buf[p + 3] as int
  }

  /** Reading four bytes and writing the number back gives the same bytes. */
  lemma WriteReadU32BE(buf: seq<byte>, p: nat)
    requires p + 4 <= |buf|
    ensures WriteU32BE(ReadU32BE(buf, p)) == buf[p..p + 4]
  {
    BigEndianDigits(buf[p], buf[p + 1], buf[p + 2], buf[p + 3]);
  }

  lemma BigEndianDigits(a: byte, b: byte, c: byte, d: byte)
    ensures var n := a as int * 0x100_0000 + b as int * 0x1_0000 + c as int * 0x100 + d as int;
      0 <= n < 0x1_0000_0000 &&
      n / 0x100_0000 == a && n / 0x1_0000 % 0x100 == b && n / 0x100 % 0x100 == c && n % 0x100 == d
  {
    var n := a as int * 0x100_0000 + b as int * 0x1_0000 + c as int * 0x100 + d as int;
    var low := b as int * 0x1_0000 + c as int * 0x100 + d as int;
    assert n == a as int * 0x100_0000 + low && 0 <= low < 0x100_0000;
    assert n / 0x100_0000 == a;
    var hi2 := a as int * 0x100 + b as int;
    assert n == hi2 * 0x1_0000 + (c as int * 0x100 + d as int);
    assert n / 0x1_0000 == hi2;
    var hi3 := a as int * 0x1_0000 + b as int * 0x100 + c as int;
    assert n == hi3 * 0x100 + d as int;
    assert n / 0x100 == hi3;
  }

  lemma ReadWriteU32BE(n: u32)
    ensures ReadU32BE(WriteU32BE(n), 0) == n
  {
    var w := WriteU32BE(n);
    var hi3 := n / 0x100;
    assert n == hi3 * 0x100 + w[3] as int;
    var hi2 := n / 0x1_0000;
    assert hi3 == hi2 * 0x100 + w[2] as int;
    assert hi2 == w[0] as int * 0x100 + w[1] as int;
  }

  /** A read only depends on the four bytes it covers. */
  lemma ReadU32BEAt(buf: seq<byte>, p: nat, n: u32)
    requires p + 4 <= |buf| && buf[p..p + 4] == WriteU32BE(n)
    ensures ReadU32BE(buf, p) == n
  {
    ReadWriteU32BE(n);
    assert buf[p..p + 4][0] == buf[p] && buf[p..p + 4][1] == buf[p + 1];
    assert buf[p..p + 4][2] == buf[p + 2] && buf[p..p + 4][3] == buf[p + 3];
  }

  /** `buf.readUInt32BE(offset)`: a RangeError unless four bytes are there. */
  function ReadUInt32BE(buf: seq<byte>, offset: int): (r: Result<u32, Error>)
    ensures r.Success? <==> 0 <= offset && offset + 4 <= |buf|
    ensures r.Success? ==> r.value == ReadU32BE(buf, offset)
    ensures r.Failure? ==> r.error == OutOfRange(offset, |buf|)
  {
    if 0 <= offset && offset + 4 <= |buf| then Success(ReadU32BE(buf, offset))
    else Failure(OutOfRange(offset, |buf|))
  }

  /** `buf.slice(start, end)`: both ends are clamped to the buffer, and an end
      before the start gives an empty view. */
  function Slice(buf: seq<byte>, start: nat, end: nat): (r: seq<byte>)
    ensures start <= end <= |buf| ==> r == buf[start..end]
    ensures start >= |buf| ==> r == []
    ensures start <= |buf| <= end ==> r == buf[start..]
  {
    var s := if start < |buf| then start else |buf|;
    var e := if end < |buf| then end else |buf|;
    if e <= s then buf[s..s] else buf[s..e]
  }

  /** A slice never reaches outside its buffer, whatever the bounds. */
  lemma SliceWithin(buf: seq<byte>, start: nat, end: nat)
    ensures SliceOf(Slice(buf, start, end), buf)
  {
    var s := if start < |buf| then start else |buf|;
    var e := if end < |buf| then end else |buf|;
    if e <= s {
      assert buf[s..s] == Slice(buf, start, end);
    } else {
      assert buf[s..e] == Slice(buf, start, end);
    }
  }

  /** The bytes of a run placed at `pos` of a buffer, read back from the buffer. */
  lemma SubSliceAt(buf: seq<byte>, pos: nat, rec: seq<byte>, a: nat, b: nat)
    requires pos + |rec| <= |buf| && buf[pos..pos + |rec|] == rec
    requires a <= b <= |rec|
    ensures buf[pos + a..pos + b] == rec[a..b]
  {
    forall k | 0 <= k < b - a ensures buf[pos + a..pos + b][k] == rec[a..b][k] {
      assert buf[pos..pos + |rec|][a + k] == buf[pos + a + k];
    }
  }

  /** A concatenation placed in a buffer: each part lies where expected. */
  lemma SplitAt(buf: seq<byte>, pos: nat, x: seq<byte>, y: seq<byte>)
    requires pos + |x| + |y| <= |buf| && buf[pos..pos + |x| + |y|] == x + y
    ensures buf[pos..pos + |x|] == x && buf[pos + |x|..pos + |x| + |y|] == y
  {
    SubSliceAt(buf, pos, x + y, 0, |x|);
    SubSliceAt(buf, pos, x + y, |x|, |x| + |y|);
    assert (x + y)[0..|x|] == x;
    assert (x + y)[|x|..|x| + |y|] == y;
  }

  /** `part` is a contiguous run of bytes of `whole`. */
  ghost predicate SliceOf(part: seq<byte>, whole: seq<byte>)
  {
    exists a, b :: 0 <= a <= b <= |whole| && whole[a..b] == part
  }

  /** `buffer.toString('ascii', pos, pos + 1)`: Node unsets the high bit of the
      byte before decoding it as Latin-1. */
  function TagChar(b: byte): (c: char)
    ensures c as int < 0x80
    ensures b < 0x80 ==> c as int == b
    ensures b >= 0x80 ==> c as int == b - 0x80
  {
    (b % 0x80) as char
  }

  /** The number of bytes from `p` up to the first zero byte, or up to the end
      of the buffer when there is none: what the loop
      `while (pos + l < buffer.length && buffer[pos + l] !== 0) l += 1`
      leaves in `l`. */
  function ZeroRun(buf: seq<byte>, p: nat): (l: nat)
    ensures p <= |buf| ==> p + l <= |buf|
    ensures p >= |buf| ==> l == 0
    ensures forall k :: p <= k < p + l ==> buf[k] != 0
    ensures p + l < |buf| ==> buf[p + l] == 0
    decreases |buf| - p
  {
    if p >= |buf| || buf[p] == 0 then 0 else 1 + ZeroRun(buf, p + 1)
  }

  /** The contract of ZeroRun determines it: a run of non-zero bytes that ends at
      a zero byte (or at the end of the buffer) is the one the scan finds. */
  lemma ZeroRunIs(buf: seq<byte>, p: nat, n: nat)
    requires p + n <= |buf|
    requires forall k :: p <= k < p + n ==> buf[k] != 0
    requires p + n == |buf| || buf[p + n] == 0
    ensures ZeroRun(buf, p) == n
  {
  }

  /** The scan loop itself, bounded by the buffer length. */
  method FindZero(buffer: seq<byte>, pos: nat) returns (l: nat)
    ensures l == ZeroRun(buffer, pos)
  {
    l := 0;
    while pos + l < |buffer| && buffer[pos + l] != 0
      invariant ZeroRun(buffer, pos) == l + ZeroRun(buffer, pos + l)
      decreases |buffer| - (pos + l)
    {
      l := l + 1;
    }
  }
}
