/** Bytes and little-endian integers, as ACPI stores every multi-byte field. */
module Bytes {

  newtype byte = x: int | 0 <= x < 256

  /** 256 to the power `n`: the number of values an `n`-byte unsigned field can hold. */
  function Pow256(n: nat): (r: nat)
    ensures r >= 1
  {
    if n == 0 then 1 else 256 * Pow256(n - 1)
  }

  /** The unsigned integer stored little-endian in `s` (least significant byte first). */
  function LeDecode(s: seq<byte>): (r: nat)
    ensures r < Pow256(|s|)
  {
    if s == [] then 0 else s[0] as nat + 256 * LeDecode(s[1..])
  }

  /** The `n`-byte little-endian representation of `v`. */
  function LeEncode(v: nat, n: nat): (r: seq<byte>)
    requires v < Pow256(n)
    ensures |r| == n
  {
    if n == 0 then [] else [(v % 256) as byte] + LeEncode(v / 256, n - 1)
  }

  lemma {:induction false} DecodeEncode(v: nat, n: nat)
    requires v < Pow256(n)
    ensures LeDecode(LeEncode(v, n)) == v
  {
    if n > 0 {
      DecodeEncode(v / 256, n - 1);
      var e := LeEncode(v, n);
      assert e[1..] == LeEncode(v / 256, n - 1);
    }
  }

  lemma {:induction false} EncodeDecode(s: seq<byte>)
    ensures LeEncode(LeDecode(s), |s|) == s
  {
    if s != [] {
      EncodeDecode(s[1..]);
      var v := LeDecode(s);
      assert v % 256 == s[0] as nat && v / 256 == LeDecode(s[1..]);
    }
  }

  /** The `n`-byte little-endian field that starts at `off` in `s` (`read_unaligned` of a
      `u16_le`/`u32_le`/`u64_le`). */
  function LeAt(s: seq<byte>, off: nat, n: nat): (r: nat)
    requires off + n <= |s|
    ensures r < Pow256(n)
  {
    LeDecode(s[off..off + n])
  }

  /** A field whose bytes are `piece` holds the number `piece` encodes. */
  lemma LeAtPiece(s: seq<byte>, off: nat, n: nat, piece: seq<byte>)
    requires off + n <= |s| && s[off..off + n] == piece
    ensures LeAt(s, off, n) == LeDecode(piece)
  {
  }

  /** A field read `|h|` bytes into `h + e` is the same field read from `e`. */
  lemma LeAtAfter(h: seq<byte>, e: seq<byte>, off: nat, n: nat)
    requires off + n <= |e|
    ensures LeAt(h + e, |h| + off, n) == LeAt(e, off, n)
  {
    assert (h + e)[|h| + off..|h| + off + n] == e[off..off + n];
  }

  /** `n` bytes of physical memory starting at address `p`. */
  function PhysRead(memory: nat -> byte, p: nat, n: nat): (r: seq<byte>)
    ensures |r| == n
    ensures forall i :: 0 <= i < n ==> r[i] == memory(p + i)
  {
    seq(n, i requires 0 <= i < n => memory(p + i))
  }

  /** A window of a physical read is the physical read of that window. */
  lemma PhysReadSlice(memory: nat -> byte, p: nat, n: nat, a: nat, b: nat)
    requires a <= b <= n
    ensures PhysRead(memory, p, n)[a..b] == PhysRead(memory, p + a, b - a)
  {
    assert forall i :: 0 <= i < b - a ==> PhysRead(memory, p, n)[a..b][i] == memory(p + a + i);
  }

  /** The bytes of an ASCII literal such as `*b"APIC"`. */
  function Ascii(s: string): (r: seq<byte>)
    requires forall i :: 0 <= i < |s| ==> s[i] as int < 128
    ensures |r| == |s|
    ensures forall i :: 0 <= i < |s| ==> r[i] as int == s[i] as int
  {
    seq(|s|, i requires 0 <= i < |s| => s[i] as int as byte)
  }

  /** Bit `i` of a flags word. */
  predicate HasBit(flags: nat, i: nat)
  {
    (flags / Pow2(i)) % 2 == 1
  }

  function Pow2(i: nat): (r: nat)
    ensures r >= 1
  {
    if i == 0 then 1 else 2 * Pow2(i - 1)
  }
}
