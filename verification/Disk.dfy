/**
  Bytes, little-endian fields, and the RAM disk driver (src/sys/fs/vfs/disk/ramdisk.c).
 */
module Disk {

  type byte = x: int | 0 <= x < 256

  type u16 = x: int | 0 <= x < 0x1_0000

  type u32 = x: int | 0 <= x < 0x1_0000_0000

  type Image = seq<byte>

  /** A C string: its characters, without the terminator. */
  type CString = s: Image | forall c | c in s :: c != 0

  const EINVAL := -22

  // ----- little-endian fields

  function Get16(s: Image, off: nat): u16
    requires off + 2 <= |s|
  {
    s[off] as int + 256 * s[off + 1] as int
  }

  function Get32(s: Image, off: nat): u32
    requires off + 4 <= |s|
  {
    s[off] as int + 256 * s[off + 1] as int + 0x1_0000 * s[off + 2] as int + 0x100_0000 * s[off + 3] as int
  }

  function Put16(v: u16): (r: Image)
    ensures |r| == 2 && Get16(r, 0) == v
  {
    [v % 256, v / 256]
  }

  function Put32(v: u32): (r: Image)
    ensures |r| == 4 && Get32(r, 0) == v
  {
    Put16(v % 0x1_0000) + Put16(v / 0x1_0000)
  }

  // ----- images

  predicate InRange(s: Image, off: int, n: nat)
  {
    0 <= off < |s| && off + n <= |s|
  }

  /** The image with `buf` copied over the bytes at `off`. */
  function Splice(s: Image, off: nat, buf: Image): (r: Image)
    requires off + |buf| <= |s|
    ensures |r| == |s|
    ensures forall i: nat | i < |s| :: r[i] == if off <= i < off + |buf| then buf[i - off] else s[i]
  {
    s[..off] + buf + s[off + |buf|..]
  }

  /** Bytes outside the spliced range read as before; the range itself reads as the buffer. */
  lemma SpliceSlice(s: Image, off: nat, buf: Image, lo: nat, hi: nat)
    requires off + |buf| <= |s| && lo <= hi <= |s|
    ensures hi <= off || off + |buf| <= lo ==> Splice(s, off, buf)[lo..hi] == s[lo..hi]
    ensures lo == off && hi == off + |buf| ==> Splice(s, off, buf)[lo..hi] == buf
  {}

  /** Updating a field inside a copied-out block and copying the block back updates the field. */
  lemma SpliceNested(s: Image, base: nat, n: nat, off: nat, buf: Image)
    requires base + n <= |s| && off + |buf| <= n
    ensures Splice(s, base, Splice(s[base..base + n], off, buf)) == Splice(s, base + off, buf)
  {}

  /** ramdisk: one device, whose bytes are copied in and out under bounds checks. */
  class RamDisk {
    const data: array<byte>

    constructor (size: nat)
      ensures data.Length == size && fresh(data)
      ensures forall i | 0 <= i < size :: data[i] == 0
    {
      data := new byte[size](_ => 0);
    }

    ghost function Contents(): Image
      reads data
    {
      data[..]
    }

    /** ramdisk_read(): `buf` is meaningful only when `n` is returned. */
    method Read(minor: nat, n: nat, off: int) returns (ret: int, buf: Image)
      ensures ret == n <==> minor == 0 && InRange(Contents(), off, n)
      ensures ret == n ==> buf == Contents()[off..off + n]
      ensures ret != n ==> ret == EINVAL && buf == []
    {
      if minor >= 1 || off < 0 || n > data.Length || off >= data.Length || off + n > data.Length {
        return EINVAL, [];
      }
      return n, data[off..off + n];
    }

    /** ramdisk_write(). */
    method Write(minor: nat, buf: Image, off: int) returns (ret: int)
      modifies data
      ensures ret == |buf| <==> minor == 0 && InRange(old(Contents()), off, |buf|)
      ensures ret == |buf| ==> Contents() == Splice(old(Contents()), off, buf)
      ensures ret != |buf| ==> ret == EINVAL && Contents() == old(Contents())
    {
      if minor >= 1 || off < 0 || |buf| > data.Length || off >= data.Length || off + |buf| > data.Length {
        return EINVAL;
      }
      ghost var before := data[..];
      for i := 0 to |buf|
        invariant data[..off] == before[..off]
        invariant data[off..off + i] == buf[..i]
        invariant data[off + i..] == before[off + i..]
      {
        data[off + i] := buf[i];
      }
      assert data[..] == data[..off] + data[off..off + |buf|] + data[off + |buf|..];
      return |buf|;
    }
  }
}
