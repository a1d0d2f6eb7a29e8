/**
  The value types of src/types.rs: the length-checked MQTT string and the
  variable byte integer with its two conversions from and to a 32-bit number.
 */
module Types {

  import opened Wrappers
  import opened Bytes
  import opened VarInt

  /** A UTF-8 string (section 1.5.3 of MQTT Version 3.1.1), kept as its bytes
      together with its byte length. */
  datatype MQTTString = MQTTString(len: U16, data: seq<Byte>)

  /** The validating constructor: a string is accepted exactly when its byte
      length fits the two-byte length prefix. */
  function MQTTStringFrom(s: seq<Byte>): (r: Option<MQTTString>)
    ensures r.Some? <==> |s| <= 65535
    ensures r.Some? ==> r.value.len == |s| && r.value.data == s
  {
    if |s| <= 65535 then Some(MQTTString(|s|, s)) else None
  }

  /** A variable byte integer, as its encoded bytes. */
  datatype VarByte = VarByte(data: seq<Byte>)

  /** `VarByte::from(u32)`: the encoding loop. */
  method VarByteFrom(value: U32) returns (vb: VarByte)
    ensures vb.data == Encoding(value)
  {
    var x: U32 := value;
    var v: seq<Byte> := [];
    while true
      invariant v + Encoding(x) == Encoding(value)
      invariant x <= value
      decreases x
    {
      var b: Byte := x % 128;
      x := x / 128;
      if x > 0 {
        b := b + 128;
      }
      v := v + [b];
      if x == 0 {
        break;
      }
    }
    vb := VarByte(v);
  }

  /** `u32::from(VarByte)`: accumulate payloads until a byte with bit 7
      clear. The Rust loop panics on input that is not decodable: its bounds
      checked `data[i]` runs past the end when no terminator exists, and its
      empty overflow guard lets a fifth pass overflow the multiplier. On
      decodable input neither 32-bit accumulator overflows. */
  method U32FromVarByte(vb: VarByte) returns (v: U32)
    requires Decodable(vb.data)
    ensures v == Decoded(vb.data)
  {
    ghost var k := FirstTerminator(vb.data).value;
    var multiplier: U32 := 1;
    v := 0;
    var b: Byte;
    var i: nat := 0;
    while true
      invariant i <= k
      invariant multiplier == Pow128(i)
      invariant v == Value(vb.data[..i])
      decreases k - i
    {
      b := vb.data[i];
      ValueSnoc(vb.data[..i], b);
      assert vb.data[..i + 1] == vb.data[..i] + [b];
      ValueBound(vb.data[..i + 1]);
      PowMonotone(i + 1, 4);
      v := v + Payload(b) * multiplier;
      multiplier := multiplier * 128;
      i := i + 1;
      if !Continues(b) {
        break;
      }
    }
  }

  /** A fifth pass always panics: it multiplies the multiplier, 128^4 after
      four passes, by 128 again, and 128^5 does not fit a u32, whatever the
      fifth byte holds. */
  lemma FifthPassOverflowsMultiplier()
    ensures Pow128(4) < 0x1_0000_0000 <= Pow128(5)
  {
  }

  /** The panic is the multiplier's, not the value's: `[128, 128, 128, 128, 1]`
      stands for 2^28, which fits a u32, yet the decoder must not be given it. */
  lemma FiveByteValueFitsU32()
    ensures FirstTerminator([128, 128, 128, 128, 1]) == Some(4)
    ensures Decoded([128, 128, 128, 128, 1]) == 0x1000_0000
    ensures !Decodable([128, 128, 128, 128, 1])
  {
    FirstTerminatorAt([128, 128, 128, 128, 1], 4);
    assert [128, 128, 128, 128, 1][..5] == [128, 128, 128, 128, 1];
  }

  /** With a fifth byte whose payload is 16 or more, the value itself no
      longer fits the 32-bit accumulator either. */
  lemma FifthByteOverflows(s: seq<Byte>)
    requires FirstTerminator(s) == Some(4) && Payload(s[4]) >= 16
    ensures Decoded(s) >= 0x1_0000_0000
  {
    var p := s[..5];
    assert p == s[..4] + [s[4]];
    ValueSnoc(s[..4], s[4]);
  }

  // The unit tests of src/types.rs, stated of the reference definitions that
  // `VarByteFrom` and `U32FromVarByte` are proved equal to.

  lemma CreateString()
    ensures MQTTStringFrom(Ascii("Hello world")) == Some(MQTTString(11, Ascii("Hello world")))
  {
  }

  /** 100,000 copies of a 57-byte sentence are rejected. */
  lemma CreateInvalidString(s: seq<Byte>)
    requires |s| == 57 * 100_000
    ensures MQTTStringFrom(s) == None
  {
  }

  lemma VarByteVectors()
    ensures Encoding(127) == [127]
    ensures Encoding(128) == [128, 1]
    ensures Encoding(268_435_455) == [255, 255, 255, 127]
  {
  }

  /** The boundaries of each encoded length. */
  lemma VarByteLengths()
    ensures |Encoding(16_383)| == 2 && |Encoding(16_384)| == 3
    ensures |Encoding(2_097_151)| == 3 && |Encoding(2_097_152)| == 4
  {
  }

  lemma U32FromVarByteVector()
    ensures Decodable(Encoding(1_234_567))
    ensures Decoded(Encoding(1_234_567)) == 1_234_567
  {
    EncodingDecodable(1_234_567);
    DecodeEncoding(1_234_567, []);
    assert Encoding(1_234_567) + [] == Encoding(1_234_567);
  }

}
