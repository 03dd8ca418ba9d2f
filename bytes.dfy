/** Bytes, unsigned 32-bit integers and their little-endian encoding.
    Both implementations store every u32 of a page (the cell count, the keys,
    the row id) as four little-endian bytes: the Rust code through
    `LittleEndian::write_u32`/`read_u32`, the C code by `memcpy` of a
    `uint32_t` on a little-endian host. */
module Bytes {

  type byte = b: int | 0 <= b < 256
  type u32 = x: int | 0 <= x < 0x1_0000_0000

  /** `n` zero bytes. */
  function Zeros(n: nat): (r: seq<byte>)
    ensures |r| == n
    ensures forall i :: 0 <= i < n ==> r[i] == 0
  {
    seq(n, _ => 0)
  }

  /** The four little-endian bytes of `x`, least significant first. */
  function LeBytes(x: u32): (r: seq<byte>)
    ensures |r| == 4
  {
    var x1 := x / 256;
    var x2 := x1 / 256;
    [x % 256, x1 % 256, x2 % 256, x2 / 256]
  }

  /** The u32 whose little-endian encoding is `b`. */
  function LeValue(b: seq<byte>): (x: u32)
    requires |b| == 4
    ensures x % 256 == b[0]
  {
    b[0] as int + 256 * (b[1] as int + 256 * (b[2] as int + 256 * b[3] as int))
  }

  lemma DecodeEncode(x: u32)
    ensures LeValue(LeBytes(x)) == x
  {
    var x1 := x / 256;
    var x2 := x1 / 256;
    assert x == x % 256 + 256 * x1;
    assert x1 == x1 % 256 + 256 * x2;
    assert x2 == x2 % 256 + 256 * (x2 / 256);
  }

  lemma EncodeDecode(b: seq<byte>)
    requires |b| == 4
    ensures LeBytes(LeValue(b)) == b
  {
    var hi2: int := b[2] as int + 256 * b[3] as int;
    var hi1: int := b[1] as int + 256 * hi2;
    var x: int := b[0] as int + 256 * hi1;
    assert x / 256 == hi1;
    assert hi1 / 256 == hi2;
    assert hi2 / 256 == b[3];
  }

  /** The u32 stored little-endian at `pos` in `s`. */
  function ReadU32(s: seq<byte>, pos: nat): u32
    requires pos + 4 <= |s|
  {
    LeValue(s[pos..pos + 4])
  }

  /** `s` with the four bytes at `pos` replaced by the encoding of `x`.
      Reading back at `pos` gives `x`, and no byte outside `pos..pos+4` changes. */
  function WriteU32(s: seq<byte>, pos: nat, x: u32): (r: seq<byte>)
    requires pos + 4 <= |s|
    ensures |r| == |s|
    ensures ReadU32(r, pos) == x
    ensures r[pos..pos + 4] == LeBytes(x)
    ensures forall i :: 0 <= i < |s| && !(pos <= i < pos + 4) ==> r[i] == s[i]
  {
    DecodeEncode(x);
    var r := s[..pos] + LeBytes(x) + s[pos + 4..];
    assert r[pos..pos + 4] == LeBytes(x);
    r
  }

  /** `s` with `src` written over it starting at `pos`. */
  function Overwrite(s: seq<byte>, pos: nat, src: seq<byte>): (r: seq<byte>)
    requires pos + |src| <= |s|
    ensures |r| == |s|
    ensures r[pos..pos + |src|] == src
    ensures forall i :: 0 <= i < |s| && !(pos <= i < pos + |src|) ==> r[i] == s[i]
  {
    var r := s[..pos] + src + s[pos + |src|..];
    assert r[pos..pos + |src|] == src;
    r
  }

  /** Byte k of an overwritten sequence. */
  lemma OverwriteAt(s: seq<byte>, pos: nat, src: seq<byte>, k: nat)
    requires pos + |src| <= |s| && k < |s|
    ensures Overwrite(s, pos, src)[k] == if pos <= k < pos + |src| then src[k - pos] else s[k]
  {
    if pos <= k < pos + |src| {
      assert Overwrite(s, pos, src)[pos..pos + |src|][k - pos] == src[k - pos];
    }
  }

  /** C's `memcpy(dst + pos, src, |src|)`: copies `src` into the array, byte by byte. */
  method Memcpy(dst: array<byte>, pos: nat, src: seq<byte>)
    requires pos + |src| <= dst.Length
    modifies dst
    ensures dst[..] == Overwrite(old(dst[..]), pos, src)
  {
    var i := 0;
    while i < |src|
      invariant 0 <= i <= |src|
      invariant forall k :: 0 <= k < dst.Length && !(pos <= k < pos + i) ==> dst[k] == old(dst[k])
      invariant forall k :: 0 <= k < i ==> dst[pos + k] == src[k]
    {
      dst[pos + i] := src[i];
      i := i + 1;
    }
    ghost var r := Overwrite(old(dst[..]), pos, src);
    assert forall k :: 0 <= k < dst.Length ==> dst[k] == r[k] by {
      forall k | 0 <= k < dst.Length ensures dst[k] == r[k] {
        if pos <= k < pos + |src| {
          assert r[pos..pos + |src|][k - pos] == src[k - pos];
        }
      }
    }
    assert dst[..] == r;
  }

  /** A sequence that holds `src` at `pos` and `s` everywhere else is Overwrite(s, pos, src). */
  lemma OverwriteUnique(s: seq<byte>, pos: nat, src: seq<byte>, r: seq<byte>)
    requires pos + |src| <= |s| && |r| == |s|
    requires forall k :: 0 <= k < |s| && !(pos <= k < pos + |src|) ==> r[k] == s[k]
    requires forall k :: pos <= k < pos + |src| ==> r[k] == src[k - pos]
    ensures r == Overwrite(s, pos, src)
  {
    var w := Overwrite(s, pos, src);
    forall k | 0 <= k < |s| ensures r[k] == w[k] {
      if pos <= k < pos + |src| {
        assert w[pos..pos + |src|][k - pos] == src[k - pos];
      }
    }
  }

  /** Two adjacent writes are one write of the concatenation. */
  lemma OverwriteConcat(s: seq<byte>, pos: nat, a: seq<byte>, b: seq<byte>)
    requires pos + |a| + |b| <= |s|
    ensures Overwrite(Overwrite(s, pos, a), pos + |a|, b) == Overwrite(s, pos, a + b)
  {
    var l := Overwrite(Overwrite(s, pos, a), pos + |a|, b);
    var r := Overwrite(s, pos, a + b);
    forall k | 0 <= k < |s| ensures l[k] == r[k] {
      if pos <= k < pos + |a| {
        assert Overwrite(s, pos, a)[pos..pos + |a|][k - pos] == a[k - pos];
        assert r[pos..pos + |a| + |b|][k - pos] == (a + b)[k - pos];
      } else if pos + |a| <= k < pos + |a| + |b| {
        assert l[pos + |a|..pos + |a| + |b|][k - pos - |a|] == b[k - pos - |a|];
        assert r[pos..pos + |a| + |b|][k - pos] == (a + b)[k - pos];
      }
    }
  }

  /** Storing a u32 is writing its four little-endian bytes. */
  lemma WriteU32IsOverwrite(s: seq<byte>, pos: nat, x: u32)
    requires pos + 4 <= |s|
    ensures WriteU32(s, pos, x) == Overwrite(s, pos, LeBytes(x))
  {
    var w := WriteU32(s, pos, x);
    var o := Overwrite(s, pos, LeBytes(x));
    forall k | 0 <= k < |s| ensures w[k] == o[k] {
      if pos <= k < pos + 4 {
        assert w[pos..pos + 4][k - pos] == o[pos..pos + 4][k - pos];
      }
    }
  }
}
