/**
  The MQTT variable byte integer (section 2.2.3 of MQTT Version 3.1.1), which
  carries the Remaining Length of the fixed header.

  A value is written least significant group first, seven bits per byte; bit 7
  of a byte is the continuation bit and is set on every byte but the last. This
  module holds the reference definitions that both encoders and the decoder of
  the codec are proved against, and the properties of the scheme itself.
 */
module VarInt {

  import opened Wrappers
  import opened Bytes

  /** The largest value four bytes can carry. */
  const MaxValue: nat := 268_435_455

  function Pow128(n: nat): (r: nat)
    ensures r >= 1
  {
    if n == 0 then 1 else 128 * Pow128(n - 1)
  }

  /** The seven payload bits of a byte (`b & 127`). */
  function Payload(b: Byte): (r: nat)
    ensures r < 128
  {
    b % 128
  }

  /** Whether more bytes follow (`b & 128 != 0`). */
  predicate Continues(b: Byte)
  {
    b >= 128
  }

  /** The encoding of `value`: take the low seven bits, mark the byte when a
      nonzero quotient remains, and go on with the quotient. */
  function Encoding(value: nat): (r: seq<Byte>)
  {
    if value < 128 then [value] else [value % 128 + 128] + Encoding(value / 128)
  }

  /** The number the payloads of `s` stand for: the sum of
      `Payload(s[i]) * 128^i` over all positions. */
  function Value(s: seq<Byte>): nat
  {
    if s == [] then 0 else Payload(s[0]) + 128 * Value(s[1..])
  }

  /** Every byte but the last has bit 7 set, and the last has it clear. */
  ghost predicate WellFormed(s: seq<Byte>)
  {
    && |s| >= 1
    && (forall i :: 0 <= i < |s| - 1 ==> Continues(s[i]))
    && !Continues(s[|s| - 1])
  }

  /** No padding: the last byte carries a nonzero payload, unless it is the only one. */
  ghost predicate Minimal(s: seq<Byte>)
  {
    |s| >= 1 && (|s| == 1 || Payload(s[|s| - 1]) != 0)
  }

  /** The position of the first byte whose bit 7 is clear, where the decoder stops. */
  function FirstTerminator(s: seq<Byte>): (r: Option<nat>)
    ensures r.Some? ==> r.value < |s| && !Continues(s[r.value])
    ensures r.Some? ==> forall j :: 0 <= j < r.value ==> Continues(s[j])
    ensures r.None? ==> forall j :: 0 <= j < |s| ==> Continues(s[j])
  {
    if s == [] then None
    else if !Continues(s[0]) then Some(0)
    else match FirstTerminator(s[1..])
      case None => None
      case Some(k) => Some(k + 1)
  }

  /** Input the Rust decoder handles without panicking: a byte with bit 7
      clear within the first four bytes. Without any such byte the bounds
      check on `data[i]` panics. With the first one at the fifth byte or
      later, the fifth pass multiplies the u32 multiplier 128^4 by 128 and
      overflows. */
  ghost predicate Decodable(s: seq<Byte>)
  {
    FirstTerminator(s).Some? && FirstTerminator(s).value < 4
  }

  /** The value the decoder computes: the payloads up to and including the
      first terminating byte. */
  function Decoded(s: seq<Byte>): nat
    requires FirstTerminator(s).Some?
  {
    Value(s[..FirstTerminator(s).value + 1])
  }

  /** The decoder's accumulation order: the sum grows by the next payload
      times the next power of 128. */
  lemma {:induction false} ValueSnoc(s: seq<Byte>, b: Byte)
    ensures Value(s + [b]) == Value(s) + Payload(b) * Pow128(|s|)
  {
    if s == [] {
      assert s + [b] == [b];
      assert [b][1..] == [];
    } else {
      assert (s + [b])[1..] == s[1..] + [b];
      ValueSnoc(s[1..], b);
    }
  }

  lemma {:induction false} ValueBound(s: seq<Byte>)
    ensures Value(s) < Pow128(|s|)
  {
    if s != [] {
      ValueBound(s[1..]);
    }
  }

  /** At least one byte; bit 7 set on all but the last, clear on the last;
      no zero padding byte. */
  lemma {:induction false} EncodingWellFormed(value: nat)
    ensures WellFormed(Encoding(value)) && Minimal(Encoding(value))
  {
    if value >= 128 {
      EncodingWellFormed(value / 128);
      var t := Encoding(value / 128);
      assert Encoding(value) == [value % 128 + 128] + t;
      assert forall i :: 1 <= i < |t| + 1 ==> Encoding(value)[i] == t[i - 1];
    }
  }

  /** The payloads of the encoding add up to the encoded value. */
  lemma {:induction false} EncodingValue(value: nat)
    ensures Value(Encoding(value)) == value
  {
    if value >= 128 {
      EncodingValue(value / 128);
      assert Encoding(value)[1..] == Encoding(value / 128);
    }
  }

  /** The length of the encoding is the least n with value < 128^n. */
  lemma {:induction false} EncodingLength(value: nat)
    ensures value < Pow128(|Encoding(value)|)
    ensures |Encoding(value)| == 1 || Pow128(|Encoding(value)| - 1) <= value
  {
    if value >= 128 {
      EncodingLength(value / 128);
    }
  }

  /** Exactly the values up to 268,435,455 take one to four bytes. */
  lemma EncodingFitsFourBytes(value: nat)
    ensures 1 <= |Encoding(value)|
    ensures |Encoding(value)| <= 4 <==> value <= MaxValue
  {
    EncodingLength(value);
    var n := |Encoding(value)|;
    assert Pow128(4) == MaxValue + 1;
    if n <= 4 {
      PowMonotone(n, 4);
    } else {
      PowMonotone(4, n - 1);
    }
  }

  lemma {:induction false} PowMonotone(m: nat, n: nat)
    requires m <= n
    ensures Pow128(m) <= Pow128(n)
  {
    if m < n {
      PowMonotone(m, n - 1);
    }
  }

  /** The encoding is the only minimal well-formed sequence for its value. */
  lemma {:induction false} EncodingUnique(s: seq<Byte>)
    requires WellFormed(s) && Minimal(s)
    ensures s == Encoding(Value(s))
  {
    if |s| == 1 {
      assert s == [s[0]];
      assert s[1..] == [];
    } else {
      var t := s[1..];
      assert forall i :: 0 <= i < |t| - 1 ==> t[i] == s[i + 1];
      assert WellFormed(t) && Minimal(t);
      EncodingUnique(t);
      assert Value(t) > 0 by {
        ValuePositive(t);
      }
      assert s == [s[0]] + t;
    }
  }

  /** A non-empty sequence whose last payload is nonzero stands for a nonzero value. */
  lemma {:induction false} ValuePositive(s: seq<Byte>)
    requires |s| >= 1 && Payload(s[|s| - 1]) != 0
    ensures Value(s) > 0
  {
    if |s| > 1 {
      assert s[1..][|s[1..]| - 1] == s[|s| - 1];
      ValuePositive(s[1..]);
    }
  }

  /** Round trip: decoding an encoding yields the value, stops at its last
      byte, and is not disturbed by whatever follows it. */
  lemma {:induction false} DecodeEncoding(value: nat, rest: seq<Byte>)
    ensures FirstTerminator(Encoding(value) + rest) == Some(|Encoding(value)| - 1)
    ensures Decoded(Encoding(value) + rest) == value
  {
    var e := Encoding(value);
    EncodingWellFormed(value);
    EncodingValue(value);
    var s := e + rest;
    assert forall j :: 0 <= j < |e| ==> s[j] == e[j];
    FirstTerminatorAt(s, |e| - 1);
    assert s[..|e|] == e;
  }

  /** The first terminator is the position `k` when bit 7 is clear there and
      set everywhere before it. */
  lemma {:induction false} FirstTerminatorAt(s: seq<Byte>, k: nat)
    requires k < |s| && !Continues(s[k])
    requires forall j :: 0 <= j < k ==> Continues(s[j])
    ensures FirstTerminator(s) == Some(k)
  {
    if k > 0 {
      assert forall j :: 0 <= j < k - 1 ==> s[1..][j] == s[j + 1];
      FirstTerminatorAt(s[1..], k - 1);
    }
  }

  /** The decoder depends only on the bytes up to and including the first
      terminating byte. */
  lemma DecodedIgnoresSuffix(s: seq<Byte>, rest: seq<Byte>)
    requires FirstTerminator(s).Some?
    ensures FirstTerminator(s + rest) == FirstTerminator(s)
    ensures Decoded(s + rest) == Decoded(s)
  {
    var k := FirstTerminator(s).value;
    assert forall j :: 0 <= j <= k ==> (s + rest)[j] == s[j];
    FirstTerminatorAt(s + rest, k);
    assert (s + rest)[..k + 1] == s[..k + 1];
  }

  /** Decoding inverts encoding on minimal input: a minimal terminated prefix
      is the encoding of the value decoded from it. */
  lemma EncodeDecoded(s: seq<Byte>)
    requires FirstTerminator(s).Some?
    requires Minimal(s[..FirstTerminator(s).value + 1])
    ensures Encoding(Decoded(s)) == s[..FirstTerminator(s).value + 1]
  {
    var p := s[..FirstTerminator(s).value + 1];
    assert WellFormed(p);
    EncodingUnique(p);
  }

  /** What the Rust decoder accepts is in range: a terminator within four
      bytes yields at most 268,435,455, and every value in range is encoded
      in a form the decoder accepts. */
  lemma DecodableRange(s: seq<Byte>)
    requires Decodable(s)
    ensures Decoded(s) <= MaxValue
  {
    var k := FirstTerminator(s).value;
    ValueBound(s[..k + 1]);
    PowMonotone(k + 1, 4);
  }

  lemma EncodingDecodable(value: nat)
    requires value <= MaxValue
    ensures Decodable(Encoding(value))
  {
    DecodeEncoding(value, []);
    assert Encoding(value) + [] == Encoding(value);
    EncodingFitsFourBytes(value);
  }

}
