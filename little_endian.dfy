/**
 * Little-endian unsigned integers stored in a byte buffer.
 *
 * The inspector reads every multi-byte field by casting a pointer into the
 * file buffer, so a field is read in host byte order; the model fixes that
 * order to little-endian (ELFDATA2LSB), the order of every x86-64 host.
 */
module LittleEndian {

  /** One byte of the file buffer. */
  newtype Byte = b: int | 0 <= b < 256

  /** 256^n: the number of distinct values an n-byte field can hold. */
  function Pow256(n: nat): (r: nat)
    ensures r > 0
  {
    if n == 0 then 1 else 256 * Pow256(n - 1)
  }

  const U16Limit: nat := 0x1_0000
  const U32Limit: nat := 0x1_0000_0000
  const U64Limit: nat := 0x1_0000_0000_0000_0000

  /** The value of the bytes `s`, least significant byte first. */
  function LeUint(s: seq<Byte>): (v: nat)
    ensures v < Pow256(|s|)
  {
    if s == [] then 0 else s[0] as int + 256 * LeUint(s[1..])
  }

  /** The `n` low-order bytes of `v`, least significant byte first. */
  function LeBytes(v: nat, n: nat): (s: seq<Byte>)
    ensures |s| == n
  {
    if n == 0 then [] else [(v % 256) as Byte] + LeBytes(v / 256, n - 1)
  }

  /** Encoding a value that fits in `n` bytes and reading it back gives the value. */
  lemma {:induction false} LeUintOfLeBytes(v: nat, n: nat)
    requires v < Pow256(n)
    ensures LeUint(LeBytes(v, n)) == v
  {
    if n > 0 {
      var p := Pow256(n - 1);
      assert v == 256 * (v / 256) + v % 256;
      assert v / 256 < p;
      var s := LeBytes(v, n);
      assert s[1..] == LeBytes(v / 256, n - 1);
      LeUintOfLeBytes(v / 256, n - 1);
    }
  }

  /** Reading bytes as a value and encoding the value back gives the same bytes. */
  lemma {:induction false} LeBytesOfLeUint(s: seq<Byte>)
    ensures LeBytes(LeUint(s), |s|) == s
  {
    if s != [] {
      var v := LeUint(s);
      var rest := LeUint(s[1..]);
      assert v == s[0] as int + 256 * rest;
      assert v % 256 == s[0] as int && v / 256 == rest;
      LeBytesOfLeUint(s[1..]);
      assert LeBytes(v, |s|) == [s[0]] + s[1..];
    }
  }

  /** The three field widths the ELF64 records use. */
  lemma FieldLimits()
    ensures Pow256(2) == U16Limit && Pow256(4) == U32Limit && Pow256(8) == U64Limit
  {
  }

  /** The u16 field at byte `off`; its two bytes re-encode to themselves. */
  function U16At(buf: seq<Byte>, off: nat): (v: nat)
    requires off + 2 <= |buf|
    ensures v < U16Limit
    ensures LeBytes(v, 2) == buf[off..off + 2]
  {
    FieldLimits();
    LeBytesOfLeUint(buf[off..off + 2]);
    LeUint(buf[off..off + 2])
  }

  /** The u32 field at byte `off`; its four bytes re-encode to themselves. */
  function U32At(buf: seq<Byte>, off: nat): (v: nat)
    requires off + 4 <= |buf|
    ensures v < U32Limit
    ensures LeBytes(v, 4) == buf[off..off + 4]
  {
    FieldLimits();
    LeBytesOfLeUint(buf[off..off + 4]);
    LeUint(buf[off..off + 4])
  }

  /** The u64 field at byte `off`; its eight bytes re-encode to themselves. */
  function U64At(buf: seq<Byte>, off: nat): (v: nat)
    requires off + 8 <= |buf|
    ensures v < U64Limit
    ensures LeBytes(v, 8) == buf[off..off + 8]
  {
    FieldLimits();
    LeBytesOfLeUint(buf[off..off + 8]);
    LeUint(buf[off..off + 8])
  }

  /** Reading back an encoded field at a known position of a buffer. */
  lemma ReadBack(buf: seq<Byte>, off: nat, n: nat, v: nat)
    requires off + n <= |buf| && v < Pow256(n)
    requires buf[off..off + n] == LeBytes(v, n)
    ensures LeUint(buf[off..off + n]) == v
  {
    LeUintOfLeBytes(v, n);
  }

  /** A slice of a buffer equals `x` when it agrees with `x` byte by byte. */
  lemma SliceIs(buf: seq<Byte>, off: nat, x: seq<Byte>)
    requires off + |x| <= |buf|
    requires forall k | 0 <= k < |x| :: buf[off + k] == x[k]
    ensures buf[off..off + |x|] == x
  {
  }

  /** Two adjacent slices of a buffer join into one. */
  lemma JoinSlices(s: seq<Byte>, a: nat, b: nat, c: nat)
    requires a <= b <= c <= |s|
    ensures s[a..b] + s[b..c] == s[a..c]
  {
  }
}
