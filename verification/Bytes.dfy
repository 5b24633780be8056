/** Raw block memory: byte strings, 32-bit little-endian words stored in them,
    and the error numbers the file system returns. */
module Bytes {
  type byte = x: int | 0 <= x < 256

  /** A `uint32_t`. */
  type word = x: int | 0 <= x < 0x1_0000_0000

  const U32 := 0x1_0000_0000

  /** The value of an integer expression once it is stored in a `uint32_t`. */
  function Wrap(x: int): (r: word)
    ensures 0 <= x < 0x1_0000_0000 ==> r == x
  {
    x % 0x1_0000_0000
  }

  /** Values are taken modulo 2^32. */
  lemma WrapIsModulo(x: int)
    ensures U32 == 4294967296 && exists k :: x == 4294967296 * k + Wrap(x)
  {
    assert x == 4294967296 * (x / 4294967296) + Wrap(x);
  }

  datatype Errno = ENOENT | EIO | EFAULT | EEXIST | EINVAL | ENOSPC | ENAMETOOLONG | EOPNOTSUPP

  datatype Result<+T> = Ok(value: T) | Err(error: Errno)

  lemma WrapSum(x: int, y: int)
    ensures Wrap(Wrap(x) + y) == Wrap(x + y)
  {
  }

  function Zeros(n: nat): (r: seq<byte>)
    ensures |r| == n && forall i :: 0 <= i < n ==> r[i] == 0
  {
    seq(n, _ => 0)
  }

  /** `b` with the bytes from `at` on replaced: the effect of a `memcpy` into a block. */
  function Splice(b: seq<byte>, at: nat, bytes: seq<byte>): (r: seq<byte>)
    requires at + |bytes| <= |b|
    ensures |r| == |b|
    ensures forall i :: 0 <= i < |b| ==> r[i] == if at <= i < at + |bytes| then bytes[i - at] else b[i]
  {
    b[..at] + bytes + b[at + |bytes|..]
  }

  function Get32(b: seq<byte>, at: nat): word
    requires at + 4 <= |b|
  {
    b[at] as int + 0x100 * b[at + 1] as int + 0x1_0000 * b[at + 2] as int + 0x100_0000 * b[at + 3] as int
  }

  function Encode32(v: word): (r: seq<byte>)
    ensures |r| == 4 && Get32(r, 0) == v
  {
    assert v / 0x1_0000 == v / 0x100 / 0x100;
    assert v / 0x100_0000 == v / 0x1_0000 / 0x100;
    [v % 0x100, v / 0x100 % 0x100, v / 0x1_0000 % 0x100, v / 0x100_0000]
  }

  /** Stores a word: it reads back, and no word outside the four bytes changes. */
  function Put32(b: seq<byte>, at: nat, v: word): (r: seq<byte>)
    requires at + 4 <= |b|
    ensures |r| == |b|
    ensures Get32(r, at) == v
    ensures forall o: nat | o + 4 <= |b| && (o + 4 <= at || at + 4 <= o) :: Get32(r, o) == Get32(b, o)
  {
    Splice(b, at, Encode32(v))
  }

  /** Words are stored with their lowest byte first. */
  lemma LittleEndian(b0: byte, b1: byte, b2: byte, b3: byte)
    ensures Get32([b0, b1, b2, b3], 0) == b0 + 256 * b1 + 65536 * b2 + 16777216 * b3
  {
  }
}
