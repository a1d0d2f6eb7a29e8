/**
  Machine integers of the wire format and the bit operations the codec uses.

  Bytes are integers in 0..255 and the Rust integer widths are subset types, so
  that an arithmetic overflow (a panic in a debug build) is a verification error.
  The codec's masks and shifts are written arithmetically throughout; the
  lemmas below show that, on 8- and 16-bit values, each arithmetic form agrees
  with the bit operation the source writes.
 */
module Bytes {

  type Byte = x: int | 0 <= x < 0x100
  type U16 = x: int | 0 <= x < 0x1_0000
  type U32 = x: int | 0 <= x < 0x1_0000_0000

  /** The truncating cast `n as u32`. */
  function AsU32(n: nat): (r: U32)
    ensures n < 0x1_0000_0000 ==> r == n
  {
    n % 0x1_0000_0000
  }

  /** The bytes of an ASCII text; for ASCII, UTF-8 is the identity on code points. */
  function Ascii(s: string): (r: seq<Byte>)
    requires forall i :: 0 <= i < |s| ==> s[i] as int < 128
    ensures |r| == |s|
    ensures forall i :: 0 <= i < |s| ==> r[i] == s[i] as int
  {
    seq(|s|, i requires 0 <= i < |s| => s[i] as int)
  }

  // Each lemma below takes a bit-vector byte `b` and relates the number its
  // bit operation yields to the integer arithmetic the model does on
  // `b as int`, the same byte read as a number in 0..255.

  /** `b |= 0b10000000` on a byte whose bit 7 is clear adds 128. */
  lemma SetBit7IsAdd(b: bv8)
    requires b as int < 128
    ensures (b | 0x80) as int == b as int + 128
  {
    assert b < 0x80;
    assert b | 0x80 == b + 0x80;
  }

  /** `b & 127` keeps the remainder modulo 128. */
  lemma MaskLow7IsMod(b: bv8)
    ensures (b & 0x7F) as int == (b as int) % 128
  {
    if b < 0x80 {
      assert b & 0x7F == b;
      BelowBit7(b);
    } else {
      assert b & 0x7F == b - 0x80;
      ClearBit7(b);
    }
  }

  lemma BelowBit7(b: bv8)
    requires b < 0x80
    ensures b as int < 128
  {
  }

  lemma ClearBit7(b: bv8)
    requires b >= 0x80
    ensures b as int >= 128 && (b - 0x80) as int == b as int - 128
  {
  }

  /** `(b & 128) == 0` holds exactly for the bytes below 128. */
  lemma TestBit7IsCompare(b: bv8)
    ensures (b & 0x80 == 0) == (b as int < 128)
  {
    assert (b & 0x80 == 0) == (b < 0x80);
  }

  /** `(k >> 8) as u8` and `k as u8` are the quotient and remainder by 256. */
  lemma SplitU16IsDivMod(k: bv16)
    ensures (k >> 8) as int == (k as int) / 256
    ensures (k & 0xFF) as int == (k as int) % 256
  {
    assert k >> 8 == k / 0x100;
    assert k & 0xFF == k % 0x100;
  }

}
