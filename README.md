# cutie-tea wire codec in Dafny

A verified model of the encoding core of cutie-tea, a small MQTT 3.1.1 client.
It covers three things:

- the variable byte integer that carries the Remaining Length (section 2.2.3 of MQTT Version 3.1.1), in both of its implementations and with its decoder;
- the length-prefixed UTF-8 string (section 1.5.3) and its validating constructor `MQTTString::from`;
- the CONNECT packet (section 3.1): `ConnectPacket::new_simple`, its serialiser `pack`, and the packet-type nibble of the first header byte (section 2.2).

Modules:

- `Bytes` (bytes.dfy): bytes and the Rust widths `u16` and `u32`, as subset types of `int`. A value outside its width fails verification, so the arithmetic overflow a Rust debug build panics on is proved absent. The masks and shifts of the source are written as arithmetic: `b & 127` is `b % 128`, `b & 128 == 0` is `b < 128`, `b |= 0x80` on a byte below 128 is `b + 128`, `k >> 8` and `k as u8` are `k / 256` and `k % 256`. Four lemmas take a bit-vector byte (or 16-bit word) and show that the number its bit operation yields equals the integer arithmetic on its numeric value. The packet-type nibble keeps the source's bit expression.
- `VarInt` (varint.dfy): the reference definitions both encoders and the decoder are proved against:
  - `Encoding`, the bytes of a value;
  - `Value`, the sum of `payload_i * 128^i`;
  - `FirstTerminator` and `Decoded`, where the decoder stops and what it computes.

  It also holds the properties of the scheme: well-formedness, value, length, minimality, uniqueness and round trip.
- `Types` (types.dfy), for src/types.rs:
  - `MQTTString` and `MQTTStringFrom`;
  - `VarByte` with its two loops, `VarByteFrom` (`From<u32>`) and `U32FromVarByte` (`From<VarByte> for u32`);
  - the file's unit tests, as lemmas.
- `Client` (client.dfy), for src/main.rs:
  - the encoders `EncodeVariableByteInt` and `EncodeString`;
  - the `ConnectPacket` class with `NewSimple` and `Pack`;
  - `PacketTypeOf`;
  - ghost readers (`ReadString`, `ReadConnectBody`, `ReadPacket`) that parse the bytes back by the standard, and serve as the inverses of the encoders.

The source's loops are Dafny loops with invariants. Each is proved equal to a reference definition. `pack` mutates `self.fh.remaining_length`, so `ConnectPacket` is a class and `Pack` modifies only its `fh` field.

Where the code departs from the MQTT 3.1.1 standard, the model follows the code:

- The standard allows at most four bytes, up to 268,435,455. `VarByte::from` and `encode_variable_byte_int` take any `u32`, raise no error, and emit five bytes above 268,435,455. `EncodingFitsFourBytes` says exactly when the result has at most four bytes.
- The standard calls a variable byte integer malformed when it is longer than four bytes. `u32::from(VarByte)` reports no error; it panics on such input instead.
  - Without any byte whose bit 7 is clear, the bounds-checked `value.data[i]` (src/types.rs:67) runs past the end.
  - With the first such byte at position five or later, the fifth pass of `multiplier *= 128` (src/types.rs:72) takes the u32 multiplier from 128^4 to 128^5 and overflows, whatever that byte holds. The check at src/types.rs:69-71 is empty.
  - So `U32FromVarByte` requires a terminating byte within the first four bytes. `FifthPassOverflowsMultiplier` shows the multiplier overflow. `FiveByteValueFitsU32` shows it happens even where the value would fit. `FifthByteOverflows` shows the value overflows too when the fifth payload is 16 or more.
- `encode_string` truncates the length with `as u16` and does not reject strings beyond the standard's 65,535 bytes. `StringEncoding` states that prefix as the length modulo 65,536.

The CONNECT of `new_simple()` has remaining length 25 (0x19). That is 6 bytes of protocol name, 4 bytes of version, flags and keep alive, and 15 bytes of client identifier.

## Model

| member | source | states |
|---|---|---|
| `VarInt.FirstTerminator` | src/types.rs:66-75 | The decoder's stopping position is a byte with bit 7 clear, and every byte before it has bit 7 set. None means every byte has bit 7 set. |
| `VarInt.ValueSnoc` | src/types.rs:67-72 | Adding the next payload times the running multiplier 128^i gives the value of the prefix one byte longer, so the accumulated value is the sum of `(byte_i & 127) * 128^i`. |
| `VarInt.ValueBound` | src/types.rs:61-73 | n bytes of payload stand for a value below 128^n. |
| `VarInt.EncodingWellFormed` | src/main.rs:16-26 | The encoding has at least one byte. Every byte but the last has bit 7 set and the last has it clear. The last payload is nonzero unless the encoding is one byte. |
| `VarInt.EncodingValue` | src/main.rs:17-18 | The payloads of the encoding, weighted by powers of 128, sum to the encoded value. |
| `VarInt.EncodingLength` | src/main.rs:16-26 | The encoding's length n is the least n with value < 128^n. |
| `VarInt.EncodingFitsFourBytes` | src/main.rs:16-26 | The encoding has 1 to 4 bytes exactly when the value is at most 268,435,455 (section 2.2.3). |
| `VarInt.EncodingUnique` | src/main.rs:12-28 | Every well-formed, unpadded byte sequence is the encoding of its own value, so the encoding is the unique minimal representation. |
| `VarInt.DecodeEncoding` | src/types.rs:39-79 | Round trip: decoding the encoding of v, followed by any bytes, stops at the encoding's last byte and yields v. |
| `VarInt.DecodedIgnoresSuffix` | src/types.rs:66-75 | Bytes after the first terminating byte change neither where the decoder stops nor what it returns. |
| `VarInt.EncodeDecoded` | src/types.rs:39-79 | Round trip the other way: encoding the decoded value reproduces the terminated prefix, whenever that prefix is unpadded. |
| `VarInt.DecodableRange` | src/types.rs:66-75 | A terminator within four bytes yields a value of at most 268,435,455. |
| `VarInt.EncodingDecodable` | src/types.rs:39-79 | Every value up to 268,435,455 encodes to bytes the Rust decoder accepts. |
| `Bytes.AsU32` | src/main.rs:104 | The cast `body.len() as u32` leaves every length below 2^32 unchanged. |
| `Bytes.SetBit7IsAdd` | src/main.rs:19-21 | For a byte whose numeric value is below 128, `b \| 0x80` has numeric value `b + 128`. |
| `Bytes.MaskLow7IsMod` | src/types.rs:68 | The numeric value of `b & 127` is the byte's value modulo 128. |
| `Bytes.TestBit7IsCompare` | src/types.rs:74 | `(b & 128) == 0` holds exactly when the byte's numeric value is below 128. |
| `Bytes.SplitU16IsDivMod` | src/main.rs:100-101 | The numeric values of `k >> 8` and of the truncation `k as u8` are the 16-bit value divided by 256 and modulo 256. |
| `Types.MQTTStringFrom` | src/types.rs:14-21 | The result is Some exactly when the byte length is at most 65,535. Then the stored `len` is the byte length and `data` is the input unchanged. |
| `Types.VarByteFrom` | src/types.rs:39-57 | For every u32, `VarByte::from` yields exactly `Encoding(value)`. |
| `Types.U32FromVarByte` | src/types.rs:59-79 | On input with a terminator within four bytes, the result is the value of the bytes up to and including the first terminator. Neither 32-bit accumulator overflows. |
| `Types.FifthPassOverflowsMultiplier` | src/types.rs:72 | The multiplier after four passes, 128^4, fits a u32, but 128^5 does not, so any fifth pass overflows `multiplier *= 128`. |
| `Types.FiveByteValueFitsU32` | src/types.rs:66-75 | `[128, 128, 128, 128, 1]` stops at its fifth byte and stands for 2^28, which fits a u32. The input is still not decodable, because the overflow is the multiplier's. |
| `Types.FifthByteOverflows` | src/types.rs:67-73 | If the terminator is the fifth byte and its payload is at least 16, the decoded value is at least 2^32, so the u32 accumulator overflows as well. |
| `Types.CreateString` | src/types.rs:87-91 | `MQTTString::from("Hello world")` stores length 11 and the same bytes. |
| `Types.CreateInvalidString` | src/types.rs:94-100 | A string of 57 × 100,000 bytes is rejected. |
| `Types.VarByteVectors` | src/types.rs:103-125 | 127, 128 and 268,435,455 encode to [127], [128, 1] and [255, 255, 255, 127]. |
| `Types.VarByteLengths` | src/main.rs:16-26 | 16,383 and 16,384 take 2 and 3 bytes; 2,097,151 and 2,097,152 take 3 and 4 bytes. |
| `Types.U32FromVarByteVector` | src/types.rs:128-131 | The encoding of 1,234,567 is accepted by the decoder and decodes back to 1,234,567. |
| `Client.EncodeVariableByteInt` | src/main.rs:12-28 | For every u32, `encode_variable_byte_int` yields exactly `Encoding(value)`. |
| `Client.EncodersAgree` | src/main.rs:12-28 | `VarByte::from` and `encode_variable_byte_int` produce the same bytes for every input, and those bytes are `Encoding(value)`. |
| `Client.BigEndian16` | src/main.rs:32 | `to_be_bytes` gives two bytes that read back, high byte first, as the 16-bit number. |
| `Client.StringEncoding` | src/main.rs:31-39 | The output is 2 + L bytes, and its tail is the input. The two-byte big-endian prefix is L mod 65,536 (the `as u16` truncation), and L itself when L ≤ 65,535. |
| `Client.EncodeString` | src/main.rs:31-39 | The prefix-then-push loop yields exactly `StringEncoding(value)`. |
| `Client.MQTTStringEncoding` | src/types.rs:14-21 | A string that `MQTTString::from` accepts is encoded as its stored `len` (big-endian) followed by its stored `data`. |
| `Client.ConnectBody` | src/main.rs:96-102 | The CONNECT body is protocol name, version, flags, keep alive (high byte first) and client identifier. It is 8 + the two string lengths long. No will, user name or password is emitted. |
| `Client.Framed` | src/main.rs:104-109 | A packet starts with the header byte, followed by the body length as a variable byte integer, and then the body. |
| `Client.ConnectPacket.NewSimple` | src/main.rs:77-93 | It builds header byte 1 << 4 with remaining length 0, protocol "MQTT", level 4, flags 0, keep alive 60 and client "cutie-tea1234". The will, user name and password are empty. |
| `Client.ConnectPacket.Pack` | src/main.rs:95-110 | Only `fh` changes: its remaining length becomes the body length (`as u32`). The result is `[packet_type] ++ encode_variable_byte_int(body.len) ++ body`. |
| `Client.PackNewSimple` | src/main.rs:115-119 | `new_simple().pack()` yields exactly the 27 bytes `10 19 00 04 'MQTT' 04 00 00 3C 00 0D 'cutie-tea1234'`. |
| `Client.NewSimpleBody` | src/main.rs:96-102 | The CONNECT body of the `new_simple` fields is `00 04 'MQTT' 04 00 00 3C 00 0D 'cutie-tea1234'`, 25 bytes. |
| `Client.NewSimpleFraming` | src/main.rs:77-110 | The framing of the `new_simple` fields is those 27 bytes, with remaining length 0x19 in one byte. |
| `Client.SimpleStringsAreAscii` | src/main.rs:83-87 | The byte constants are the ASCII bytes of "MQTT" and "cutie-tea1234". |
| `Client.PacketTypeOf` | src/main.rs:54 | `(b & 0xF0) >> 4` (also at src/main.rs:130) lies in 0..15 and equals `b / 16`. |
| `Client.PacketTypeOfHeaderByte` | src/main.rs:80 | A header byte `(type << 4) \| flags` gives back its type. |
| `Client.NewSimpleIsConnect` | src/main.rs:130 | The first byte the client sends has packet type 1 (CONNECT). |
| `Client.ReadStringEncoding` | src/main.rs:31-39 | For L ≤ 65,535, reading a length-prefixed string back from the encoding, whatever follows it, yields the string and consumes 2 + L bytes. |
| `Client.ReadConnectBodyEncoding` | src/main.rs:95-102 | If both strings fit the prefix, the CONNECT body parses back to exactly its fields, with no trailing byte. |
| `Client.ReadPacketFramed` | src/main.rs:104-109 | For a body up to 268,435,455 bytes, the remaining length delimits exactly the body. A framed packet reads back as its header byte and body even when the next packet follows it. |
| `Client.PackedConnectReadsBack` | src/main.rs:95-110 | For strings up to 65,535 bytes, `as u32` does not truncate. The remaining length that `pack` stores is the exact body length, and the packed bytes read back to the header byte and all CONNECT fields. |

## Left out

- `main` (src/main.rs:113-144): the TCP connection, `write_all`, `flush`, buffered reads and `dbg!` output are socket I/O. That includes the reply's remaining-length handling, which takes any length byte with bit 7 set as 128. Only the packet-type expression at line 130 is modelled, as `PacketTypeOf`.
- `FixedHeader::read` (src/main.rs:48-58): it reads from a `TcpStream`. Only its packet-type expression at line 54 is modelled.
- src/packets.rs has only type and marker-trait declarations, with no behaviour, so it is not modelled.
- The `Display` and `Error` impls of `ParseVarByteError` (src/types.rs:28-37) are formatting only, and the type is never constructed.
- UTF-8 validity of `String` and `&str` is a guarantee of the Rust type system. Strings are modelled as their bytes, with no UTF-8 decoding.
- The will topic, will message, user name and password of `ConnectPacket` are kept as class fields. `pack` never serialises them, and neither does the model.
- The code has no packet decoder, no fixed-header parser beyond the type nibble, no packet kind other than CONNECT, and no MQTT 5 properties; `src/packets.rs` only declares shapes for some of them. None of these is modelled. The ghost readers in `Client` follow the standard's layout only as far as needed to state round trips for what the client encodes.
- Rust's ownership is not modelled. `pack` consumes its packet by value, but the model updates the object in place and places no restriction on later use.
- Release builds wrap on integer overflow. The model treats overflow as the debug-build panic and proves that it cannot happen.
