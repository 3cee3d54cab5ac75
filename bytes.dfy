/**
 * Octets, little-endian fixed-width integers, and the two buffer writes the
 * archive assembler uses: DataView.setUint16 / setUint32 with the
 * little-endian flag, and Uint8Array.prototype.set.
 */
module Bytes {

  /** One element of a Uint8Array. */
  type Byte = b: int | 0 <= b < 0x100

  const TWO_16: nat := 0x1_0000
  const TWO_32: nat := 0x1_0000_0000

  /**
   * The n low-order bytes of v, least significant first; higher bytes are
   * dropped, so the value is reduced modulo 256^n.
   */
  function LE(v: nat, n: nat): (r: seq<Byte>)
    ensures |r| == n
  {
    if n == 0 then [] else [v % 0x100] + LE(v / 0x100, n - 1)
  }

  /** The two bytes DataView.setUint16(pos, v, true) stores (ToUint16 wraps v). */
  function LE16(v: nat): (r: seq<Byte>)
    ensures |r| == 2
  {
    LE(v, 2)
  }

  /** The four bytes DataView.setUint32(pos, v, true) stores (ToUint32 wraps v). */
  function LE32(v: nat): (r: seq<Byte>)
    ensures |r| == 4
  {
    LE(v, 4)
  }

  /** The little-endian 16-bit value stored at s[i], s[i + 1]. */
  function U16(s: seq<Byte>, i: nat): (r: nat)
    requires i + 2 <= |s|
    ensures r < TWO_16
  {
    s[i] as int + 0x100 * (s[i + 1] as int)
  }

  /** The little-endian 32-bit value stored at s[i] .. s[i + 3]. */
  function U32(s: seq<Byte>, i: nat): (r: nat)
    requires i + 4 <= |s|
    ensures r < TWO_32
  {
    s[i] as int + 0x100 * (s[i + 1] as int) + 0x1_0000 * (s[i + 2] as int) + 0x100_0000 * (s[i + 3] as int)
  }

  /** Reading back a 16-bit field gives the written value modulo 2^16. */
  lemma LE16Decodes(v: nat)
    ensures U16(LE16(v), 0) == v % TWO_16
  {
    var q := v / 0x100;
    assert LE16(v) == [v % 0x100, q % 0x100] by {
      assert LE(v, 2) == [v % 0x100] + LE(q, 1);
      assert LE(q, 1) == [q % 0x100] + LE(q / 0x100, 0);
    }
    assert v == 0x100 * q + v % 0x100;
    assert v % TWO_16 == v % 0x100 + 0x100 * (q % 0x100);
  }

  /** Reading back a 32-bit field gives the written value modulo 2^32. */
  lemma LE32Decodes(v: nat)
    ensures U32(LE32(v), 0) == v % TWO_32
  {
    var q1 := v / 0x100;
    var q2 := v / 0x1_0000;
    var q3 := v / 0x100_0000;
    assert LE32(v) == [v % 0x100, q1 % 0x100, q2 % 0x100, q3 % 0x100] by {
      assert LE(v, 4) == [v % 0x100] + LE(q1, 3);
      assert LE(q1, 3) == [q1 % 0x100] + LE(q1 / 0x100, 2);
      assert q1 / 0x100 == q2;
      assert LE(q2, 2) == [q2 % 0x100] + LE(q2 / 0x100, 1);
      assert q2 / 0x100 == q3;
      assert LE(q3, 1) == [q3 % 0x100] + LE(q3 / 0x100, 0);
    }
    assert q2 == q1 / 0x100;
    assert q3 == q2 / 0x100;
    assert v % TWO_32 == v % 0x100 + 0x100 * (q1 % 0x100) + 0x1_0000 * (q2 % 0x100) + 0x100_0000 * (q3 % 0x100);
  }

  /** A value that fits its field is read back unchanged. */
  lemma FitsUnchanged(v: nat, m: nat)
    requires v < m
    ensures v % m == v
  {
  }

  /** A field read inside a slice reads the same bytes in the whole sequence. */
  lemma U16InSlice(s: seq<Byte>, p: nat, h: seq<Byte>, j: nat)
    requires p + |h| <= |s| && s[p..p + |h|] == h && j + 2 <= |h|
    ensures U16(s, p + j) == U16(h, j)
  {
    assert s[p + j] == h[j] && s[p + j + 1] == h[j + 1];
  }

  lemma U32InSlice(s: seq<Byte>, p: nat, h: seq<Byte>, j: nat)
    requires p + |h| <= |s| && s[p..p + |h|] == h && j + 4 <= |h|
    ensures U32(s, p + j) == U32(h, j)
  {
    assert s[p + j] == h[j] && s[p + j + 1] == h[j + 1];
    assert s[p + j + 2] == h[j + 2] && s[p + j + 3] == h[j + 3];
  }

  /** Uint8Array.prototype.set(src, pos): copies src into buf starting at pos. */
  method SetBytes(buf: array<Byte>, pos: nat, src: seq<Byte>)
    requires pos + |src| <= buf.Length
    modifies buf
    ensures buf[..] == old(buf[..pos]) + src + old(buf[pos + |src|..])
    ensures buf[..pos + |src|] == old(buf[..pos]) + src
  {
    for j := 0 to |src|
      invariant buf[..pos] == old(buf[..pos])
      invariant buf[pos..pos + j] == src[..j]
      invariant buf[pos + j..] == old(buf[pos + j..])
    {
      buf[pos + j] := src[j];
      assert buf[pos..pos + j + 1] == buf[pos..pos + j] + [src[j]];
      assert src[..j + 1] == src[..j] + [src[j]];
    }
    assert buf[..] == buf[..pos] + buf[pos..pos + |src|] + buf[pos + |src|..];
  }

  /** DataView.setUint16(pos, v, true). */
  method SetUint16(buf: array<Byte>, pos: nat, v: nat)
    requires pos + 2 <= buf.Length
    modifies buf
    ensures buf[..] == old(buf[..pos]) + LE16(v) + old(buf[pos + 2..])
    ensures buf[..pos + 2] == old(buf[..pos]) + LE16(v)
  {
    SetBytes(buf, pos, LE16(v));
  }

  /** DataView.setUint32(pos, v, true). */
  method SetUint32(buf: array<Byte>, pos: nat, v: nat)
    requires pos + 4 <= buf.Length
    modifies buf
    ensures buf[..] == old(buf[..pos]) + LE32(v) + old(buf[pos + 4..])
    ensures buf[..pos + 4] == old(buf[..pos]) + LE32(v)
  {
    SetBytes(buf, pos, LE32(v));
  }
}
