/** Bytes, big-endian fields, the magic numbers of the pbzx and xz formats, and
    what Python's `file.read(n)` hands back from a given position. */
module Bytes {

  /** An octet as Python 2 byte strings hold them. */
  newtype byte = b: int | 0 <= b < 256

  /** The ASCII signature "pbzx" that opens every container. */
  const PbzxMagic: seq<byte> := [0x70, 0x62, 0x7A, 0x78]

  /** xz Stream Header Magic Bytes FD 37 7A 58 5A 00 (xz file format, section 2.1.1.1). */
  const XzHeaderMagic: seq<byte> := [0xFD, 0x37, 0x7A, 0x58, 0x5A, 0x00]

  /** xz Stream Footer Magic Bytes "YZ" (xz file format, section 2.1.2.4). */
  const XzFooterMagic: seq<byte> := [0x59, 0x5A]

  /** 2^64: every pbzx flags and length word is an unsigned 64-bit integer. */
  const TwoTo64: nat := 0x1_0000_0000_0000_0000

  /** The value of bit 24 of a flags word: the "more chunks follow" bit. */
  const MoreChunksBit: nat := 0x100_0000

  function Pow256(k: nat): (p: nat)
    ensures p >= 1
  {
    if k == 0 then 1 else 256 * Pow256(k - 1)
  }

  /** The unsigned big-endian value of a byte string. */
  function FromBigEndian(s: seq<byte>): nat
  {
    if s == [] then 0 else FromBigEndian(s[..|s| - 1]) * 256 + s[|s| - 1] as nat
  }

  /** The `width` low-order bytes of `n`, most significant first. */
  function ToBigEndian(n: nat, width: nat): (s: seq<byte>)
    ensures |s| == width
  {
    if width == 0 then [] else ToBigEndian(n / 256, width - 1) + [(n % 256) as byte]
  }

  /** `struct.unpack('>Q', b)[0]`: only an 8-byte string unpacks; anything else raises. */
  function UnpackU64(b: seq<byte>): (r: Option<nat>)
    ensures r.Some? <==> |b| == 8
    ensures r.Some? ==> r.value < TwoTo64
  {
    if |b| == 8 then (FromBigEndianBound(b); Pow256Of8(); Some(FromBigEndian(b))) else None
  }

  /** `flags & (1 << 24)` taken as a truth value. */
  predicate HasMoreChunks(flags: nat)
  {
    (flags / MoreChunksBit) % 2 == 1
  }

  datatype Option<T> = None | Some(value: T)

  /** The bytes `f.read(n)` returns when the cursor is at `pos`: a negative `n`
      reads to end-of-file, and a read running past end-of-file comes back short. */
  function ReadAt(data: seq<byte>, pos: nat, n: int): (r: seq<byte>)
    ensures pos <= |data| ==> pos + |r| <= |data| && r == data[pos..pos + |r|]
    ensures n >= 0 ==> |r| <= n
    ensures n >= 0 && pos + n <= |data| ==> |r| == n
    ensures pos <= |data| && (n < 0 || |r| < n) ==> pos + |r| == |data|
  {
    var start := if pos <= |data| then pos else |data|;
    var end := if n < 0 || start + n > |data| then |data| else start + n;
    data[start..end]
  }

  lemma {:induction false} FromBigEndianBound(s: seq<byte>)
    ensures FromBigEndian(s) < Pow256(|s|)
  {
    if s != [] {
      FromBigEndianBound(s[..|s| - 1]);
    }
  }

  /** Splitting a big-endian string splits its value. */
  lemma {:induction false} FromBigEndianAppend(a: seq<byte>, c: seq<byte>)
    ensures FromBigEndian(a + c) == FromBigEndian(a) * Pow256(|c|) + FromBigEndian(c)
    decreases |c|
  {
    if c == [] {
      assert a + c == a;
    } else {
      var c' := c[..|c| - 1];
      assert (a + c)[..|a + c| - 1] == a + c';
      FromBigEndianAppend(a, c');
      var x := c[|c| - 1] as nat;
      assert FromBigEndian(a + c) == FromBigEndian(a + c') * 256 + x;
      assert FromBigEndian(c) == FromBigEndian(c') * 256 + x;
      assert Pow256(|c|) == 256 * Pow256(|c'|);
      Regroup(FromBigEndian(a), Pow256(|c'|), FromBigEndian(c'), x);
    }
  }

  lemma Regroup(hi: nat, scale: nat, lo: nat, x: nat)
    ensures (hi * scale + lo) * 256 + x == hi * (256 * scale) + (lo * 256 + x)
  {
  }

  /** Encoding a value below 256^width in `width` bytes and reading it back gives the value. */
  lemma {:induction false} BigEndianRoundTrip(n: nat, width: nat)
    requires n < Pow256(width)
    ensures FromBigEndian(ToBigEndian(n, width)) == n
  {
    if width > 0 {
      var s := ToBigEndian(n, width);
      assert s[..width - 1] == ToBigEndian(n / 256, width - 1);
      DivBound(n, Pow256(width - 1));
      BigEndianRoundTrip(n / 256, width - 1);
      assert FromBigEndian(s) == (n / 256) * 256 + n % 256;
    }
  }

  /** The more-chunks test of a big-endian flags word reads exactly the lowest
      bit of its fifth byte. */
  lemma FlagBitIsFifthByte(b: seq<byte>)
    requires |b| == 8
    ensures HasMoreChunks(FromBigEndian(b)) <==> b[4] as nat % 2 == 1
  {
    var hi, lo := b[..5], b[5..];
    assert b == hi + lo;
    FromBigEndianAppend(hi, lo);
    FromBigEndianBound(lo);
    assert Pow256(3) == MoreChunksBit;
    var v := FromBigEndian(b);
    assert v == FromBigEndian(hi) * MoreChunksBit + FromBigEndian(lo);
    assert v / MoreChunksBit == FromBigEndian(hi);
    assert hi[..4] == b[..4];
    assert FromBigEndian(hi) == FromBigEndian(b[..4]) * 256 + b[4] as nat;
  }

  lemma DivBound(n: nat, bound: nat)
    requires n < 256 * bound
    ensures n / 256 < bound
  {
  }

  lemma Pow256Of8()
    ensures Pow256(8) == TwoTo64
  {
  }
}
