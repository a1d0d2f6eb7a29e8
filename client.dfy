/**
  The encoding side of src/main.rs: the variable byte integer and string
  encoders, the CONNECT packet (section 3.1 of MQTT Version 3.1.1) and its
  serialiser, and the packet-type field of the first header byte.

  The ghost parsers at the end are not part of the client; they read the
  bytes back according to sections 1.5.3, 2.2 and 3.1 of the standard and
  serve as the inverses the encoders are proved against.
 */
module Client {

  import opened Wrappers
  import opened Bytes
  import opened VarInt
  import opened Types

  /** `encode_variable_byte_int`: the same loop as `VarByte::from`. */
  method EncodeVariableByteInt(value: U32) returns (v: seq<Byte>)
    ensures v == Encoding(value)
  {
    var x: U32 := value;
    v := [];
    while true
      invariant v + Encoding(x) == Encoding(value)
      invariant x <= value
      decreases x
    {
      var b: Byte := x % 128;
      x := x / 128;
      if x > 0 {
        b := b + 128;
      }
      v := v + [b];
      if x == 0 {
        break;
      }
    }
  }

  /** `VarByte::from` and `encode_variable_byte_int` produce the same bytes. */
  method EncodersAgree(value: U32) returns (a: seq<Byte>, b: seq<Byte>)
    ensures a == Encoding(value)
    ensures a == b
  {
    var vb := VarByteFrom(value);
    a := vb.data;
    b := EncodeVariableByteInt(value);
  }

  /** A 16-bit number as two bytes, most significant first (`to_be_bytes`). */
  function BigEndian16(k: U16): (r: seq<Byte>)
    ensures |r| == 2 && r[0] as int * 256 + r[1] == k
  {
    [k / 256, k % 256]
  }

  /** The bytes `encode_string` produces: the byte length, truncated to 16 bits
      by `as u16`, as a big-endian prefix, then the bytes themselves. */
  function StringEncoding(s: seq<Byte>): (r: seq<Byte>)
    ensures |r| == 2 + |s| && r[2..] == s
    ensures r[0] as int * 256 + r[1] == |s| % 65536
    ensures |s| <= 65535 ==> r[0] as int * 256 + r[1] == |s|
  {
    BigEndian16(|s| % 65536) + s
  }

  /** `encode_string`: the length prefix, then a loop pushing every byte. */
  method EncodeString(value: seq<Byte>) returns (bytes: seq<Byte>)
    ensures bytes == StringEncoding(value)
  {
    var len := BigEndian16(|value| % 65536);
    bytes := [len[0], len[1]];
    for i := 0 to |value|
      invariant bytes == len + value[..i]
    {
      bytes := bytes + [value[i]];
    }
  }

  /** A string accepted by `MQTTString::from` is encoded as its stored
      length followed by its stored bytes. */
  lemma MQTTStringEncoding(s: seq<Byte>)
    requires MQTTStringFrom(s).Some?
    ensures StringEncoding(s) == BigEndian16(MQTTStringFrom(s).value.len) + MQTTStringFrom(s).value.data
  {
  }

  /** The fixed header as the client holds it: the whole first byte (packet
      type in the high nibble, flags in the low one) and the remaining length. */
  datatype FixedHeader = FixedHeader(packetType: Byte, remainingLength: U32)

  /** The fields of a CONNECT packet that `pack` serialises. */
  datatype ConnectFields = ConnectFields(
    protocolName: seq<Byte>,
    protocolVersion: Byte,
    flags: Byte,
    keepalive: U16,
    clientIdentifier: seq<Byte>)

  /** Variable header and payload of a CONNECT packet as `pack` builds them:
      protocol name, protocol level, connect flags, keep alive, client
      identifier. No will, user name or password field is ever written. */
  function ConnectBody(c: ConnectFields): (r: seq<Byte>)
    ensures |r| == 8 + |c.protocolName| + |c.clientIdentifier|
  {
    StringEncoding(c.protocolName)
      + [c.protocolVersion, c.flags] + BigEndian16(c.keepalive)
      + StringEncoding(c.clientIdentifier)
  }

  /** A whole packet: the first header byte, the body length (`as u32`) as a
      variable byte integer, then the body. */
  function Framed(packetType: Byte, body: seq<Byte>): (r: seq<Byte>)
    ensures |r| >= 1 && r[0] == packetType
    ensures |body| <= MaxValue ==> |r| == 1 + |Encoding(|body|)| + |body|
  {
    [packetType] + Encoding(AsU32(|body|)) + body
  }

  /** The two strings of `new_simple`, "MQTT" and "cutie-tea1234", as bytes. */
  const ProtocolNameMQTT: seq<Byte> := [0x4D, 0x51, 0x54, 0x54]
  const SimpleClientId: seq<Byte> :=
    [0x63, 0x75, 0x74, 0x69, 0x65, 0x2D, 0x74, 0x65, 0x61, 0x31, 0x32, 0x33, 0x34]

  lemma SimpleStringsAreAscii()
    ensures ProtocolNameMQTT == Ascii("MQTT")
    ensures SimpleClientId == Ascii("cutie-tea1234")
  {
    assert |Ascii("MQTT")| == |ProtocolNameMQTT|;
    assert |Ascii("cutie-tea1234")| == |SimpleClientId|;
  }

  /** `ConnectPacket`: `pack` takes the packet by value and fills in the
      remaining length of its fixed header before serialising. */
  class ConnectPacket {
    var fh: FixedHeader
    var protocolName: seq<Byte>
    var protocolVersion: Byte
    var flags: Byte
    var keepalive: U16
    var clientIdentifier: seq<Byte>
    var willTopic: seq<Byte>
    var willMessage: seq<Byte>
    var username: seq<Byte>
    var password: seq<Byte>

    /** The fields `pack` reads. */
    function Fields(): ConnectFields
      reads this
    {
      ConnectFields(protocolName, protocolVersion, flags, keepalive, clientIdentifier)
    }

    /** `ConnectPacket::new_simple`: a CONNECT for protocol "MQTT" level 4, no
        connect flags, a 60 second keep alive and client "cutie-tea1234". */
    constructor NewSimple()
      ensures fh == FixedHeader(1 * 16, 0)
      ensures Fields() == SimpleFields
      ensures willTopic == [] && willMessage == [] && username == [] && password == []
    {
      fh := FixedHeader(1 * 16, 0);
      protocolName := ProtocolNameMQTT;
      protocolVersion := 4;
      flags := 0;
      keepalive := 60;
      clientIdentifier := SimpleClientId;
      willTopic := [];
      willMessage := [];
      username := [];
      password := [];
    }

    /** `ConnectPacket::pack`: builds the body, stores its length as the
        remaining length, and returns header byte, length and body. */
    method Pack() returns (bytes: seq<Byte>)
      modifies this`fh
      ensures fh == old(fh).(remainingLength := AsU32(|ConnectBody(Fields())|))
      ensures bytes == Framed(fh.packetType, ConnectBody(Fields()))
    {
      var body: seq<Byte> := [];
      var name := EncodeString(protocolName);
      body := body + name;
      body := body + [protocolVersion];
      body := body + [flags];
      var hi: Byte := keepalive / 256;
      var lo: Byte := keepalive % 256;
      body := body + [hi];
      body := body + [lo];
      var id := EncodeString(clientIdentifier);
      body := body + id;
      assert body == ConnectBody(Fields());

      fh := fh.(remainingLength := AsU32(|body|));
      bytes := [fh.packetType];
      var len := EncodeVariableByteInt(fh.remainingLength);
      bytes := bytes + len;
      bytes := bytes + body;
    }
  }

  /** The fields `new_simple` sets. */
  const SimpleFields: ConnectFields := ConnectFields(ProtocolNameMQTT, 4, 0, 60, SimpleClientId)

  /** The 25-byte CONNECT body of `new_simple`. */
  const SimpleBody: seq<Byte> :=
    [0x00, 0x04] + ProtocolNameMQTT + [0x04, 0x00, 0x00, 0x3C, 0x00, 0x0D] + SimpleClientId

  /** The 27 bytes `new_simple().pack()` yields: header byte 0x10, remaining
      length 25 (0x19), then the body. */
  const NewSimpleBytes: seq<Byte> := [0x10, 0x19] + SimpleBody

  /** What `main` sends: `ConnectPacket::new_simple().pack()`. */
  method PackNewSimple() returns (bytes: seq<Byte>)
    ensures bytes == NewSimpleBytes
    ensures |bytes| == 27
  {
    var p := new ConnectPacket.NewSimple();
    bytes := p.Pack();
    NewSimpleFraming();
  }

  lemma NewSimpleBody()
    ensures ConnectBody(SimpleFields) == SimpleBody
  {
    assert StringEncoding(ProtocolNameMQTT) == [0x00, 0x04] + ProtocolNameMQTT;
    assert StringEncoding(SimpleClientId) == [0x00, 0x0D] + SimpleClientId;
    assert BigEndian16(60) == [0x00, 0x3C];
  }

  lemma NewSimpleFraming()
    ensures Framed(1 * 16, ConnectBody(SimpleFields)) == NewSimpleBytes
  {
    NewSimpleBody();
    assert |SimpleBody| == 25;
    assert Encoding(25) == [0x19];
  }

  /** `(b & 0xF0) >> 4`: the packet type, the high nibble of the first header byte. */
  function PacketTypeOf(b: Byte): (r: nat)
    ensures r < 16 && r == b / 16
  {
    (((b as bv8) & 0xF0) >> 4) as int
  }

  /** The first header byte `(type << 4) | flags` gives back its type. */
  lemma PacketTypeOfHeaderByte(packetType: nat, flags: nat)
    requires packetType < 16 && flags < 16
    ensures PacketTypeOf(packetType * 16 + flags) == packetType
  {
  }

  /** The packet `main` sends is a CONNECT (packet type 1). */
  lemma NewSimpleIsConnect()
    ensures PacketTypeOf(NewSimpleBytes[0]) == 1
  {
  }

  // ---------------------------------------------------------------------
  // Reading the bytes back

  /** A length-prefixed string at the start of `s`, with the bytes it takes. */
  ghost function ReadString(s: seq<Byte>): Option<(seq<Byte>, nat)>
  {
    if |s| < 2 then None
    else
      var n := s[0] as int * 256 + s[1];
      if |s| < 2 + n then None else Some((s[2..2 + n], 2 + n))
  }

  /** Round trip for strings that fit the prefix, whatever follows them. */
  lemma ReadStringEncoding(s: seq<Byte>, rest: seq<Byte>)
    requires |s| <= 65535
    ensures ReadString(StringEncoding(s) + rest) == Some((s, 2 + |s|))
  {
    var e := StringEncoding(s) + rest;
    assert e[2..2 + |s|] == s;
  }

  /** A CONNECT body without will, user name or password fields, from the
      protocol name to the client identifier and no byte more. */
  ghost function ReadConnectBody(s: seq<Byte>): Option<ConnectFields>
  {
    match ReadString(s)
    case None => None
    case Some((name, n)) =>
      var t := s[n..];
      if |t| < 4 then None
      else
        match ReadString(t[4..])
        case None => None
        case Some((id, m)) =>
          if 4 + m != |t| then None
          else Some(ConnectFields(name, t[0], t[1], t[2] as int * 256 + t[3], id))
  }

  /** Round trip for CONNECT bodies whose two strings fit the prefix. */
  lemma ReadConnectBodyEncoding(c: ConnectFields)
    requires |c.protocolName| <= 65535 && |c.clientIdentifier| <= 65535
    ensures ReadConnectBody(ConnectBody(c)) == Some(c)
  {
    var tail := [c.protocolVersion, c.flags] + BigEndian16(c.keepalive) + StringEncoding(c.clientIdentifier);
    assert ConnectBody(c) == StringEncoding(c.protocolName) + tail;
    ReadStringEncoding(c.protocolName, tail);
    var t := ConnectBody(c)[2 + |c.protocolName|..];
    assert t == tail;
    ReadStringEncoding(c.clientIdentifier, []);
    assert t[4..] == StringEncoding(c.clientIdentifier) + [];
  }

  /** A packet at the start of `s`: the first header byte, the body the
      remaining length delimits, and the bytes the packet takes. */
  ghost function ReadPacket(s: seq<Byte>): Option<(Byte, seq<Byte>, nat)>
  {
    if |s| < 1 || !Decodable(s[1..]) then None
    else
      var h := 1 + FirstTerminator(s[1..]).value + 1;
      var len := Decoded(s[1..]);
      if |s| < h + len then None else Some((s[0], s[h..h + len], h + len))
  }

  /** The remaining length frames exactly the body: a framed packet reads
      back as its header byte and body, even when the next packet follows. */
  lemma ReadPacketFramed(packetType: Byte, body: seq<Byte>, next: seq<Byte>)
    requires |body| <= MaxValue
    ensures ReadPacket(Framed(packetType, body) + next) == Some((packetType, body, |Framed(packetType, body)|))
  {
    var e := Encoding(|body|);
    var s := Framed(packetType, body) + next;
    assert s[1..] == e + (body + next);
    DecodeEncoding(|body|, body + next);
    EncodingDecodable(|body|);
    EncodingFitsFourBytes(|body|);
    assert s[1 + |e|..1 + |e| + |body|] == body;
  }

  /** `pack` on fields that `MQTTString::from` accepts: the remaining length
      stored in the header is the exact body length, and the packet reads back
      as the header byte and the fields. */
  lemma PackedConnectReadsBack(packetType: Byte, c: ConnectFields, next: seq<Byte>)
    requires |c.protocolName| <= 65535 && |c.clientIdentifier| <= 65535
    ensures AsU32(|ConnectBody(c)|) == |ConnectBody(c)|
    ensures ReadPacket(Framed(packetType, ConnectBody(c)) + next)
         == Some((packetType, ConnectBody(c), |Framed(packetType, ConnectBody(c))|))
    ensures ReadConnectBody(ConnectBody(c)) == Some(c)
  {
    var body := ConnectBody(c);
    assert |body| <= MaxValue;
    ReadPacketFramed(packetType, body, next);
    ReadConnectBodyEncoding(c);
  }

}
