# MySQL protocol encoder of the mock server

This project models `MySQLProtocolEncoder`, the class the router's mock
MySQL server uses to turn server replies into wire packets. Each message
builder takes a sequence number and the message fields. It opens a packet
with `encode_msg_begin`, appends the payload with the primitive appends
(`append_byte`, `append_int`, `append_str`, `append_buffer`,
`append_lenenc_int`, `append_lenenc_str`), and closes it with
`encode_msg_end`, which back-fills the 4-byte header. The header is a 3-byte
little-endian payload length followed by the sequence number. The builders
cover OK, ERR, the server greeting (HandshakeV10), AuthSwitchRequest, the
column count, column definitions, text result-set rows, EOF and the
fast-auth success byte.

The header declares every member, but it gives a body only for `append_int`.
`mysql_protocol_encoder.cc` is not part of this model. The payload layouts of
the other members follow the MySQL client/server protocol documentation.
The exception is the zero bytes that fill a short greeting nonce, which are a
modelling choice (see "## Left out"). The documentation sections are:

- Protocol::Packet
- Protocol::LengthEncodedInteger and Protocol::LengthEncodedString
- OK_Packet, ERR_Packet and EOF_Packet
- Protocol::HandshakeV10
- Protocol::AuthSwitchRequest
- Protocol::ColumnDefinition41
- Protocol::TextResultsetRow

Each builder has a partner: a client-side decoder in module `Decoders`,
written from the protocol layout and not from the builders, with readers in module
`Reader`. A round-trip lemma proves that the decoder gets the builder's
arguments back from the framed bytes. `Framing.ParsePacket` reads the
packet header. The primitive encodings carry their own decoders
(`DecodeLittleEndian`, `DecodeLenencInt`, `DecodeLenencStr`). The capability
mask is a 32-bit number whose bits are read arithmetically. Bitwise or is
defined bit by bit and proved to be the union of the set bits.

Files:

- `wrappers.dfy`: `Option`
- `primitives.dfy`: bytes and the append primitives
- `capabilities.dfy`: capability flags
- `framing.dfy`: the packet header
- `protocol.dfy`: message records and markers
- `reader.dfy`: cursor readers
- `decoders.dfy`: client-side decoders
- `encoder.dfy`: the builders and their round trips

## Model

| member | source | states |
|---|---|---|
| Primitives.AppendInt | router/src/mock_server/src/mysql_protocol_encoder.h:176-184 | appends exactly `len` bytes and keeps the buffer in front; the appended bytes, read little-endian, give the value truncated to `len` bytes |
| Primitives.AppendIntLoop | router/src/mock_server/src/mysql_protocol_encoder.h:177-184 | the byte-at-a-time loop (push the low byte, shift right by 8, `len` times) produces the same buffer as `AppendInt` |
| Primitives.LittleEndianByte | router/src/mock_server/src/mysql_protocol_encoder.h:179-182 | byte `i` of the encoding is the value shifted right by `8*i`, truncated to 8 bits |
| Primitives.LittleEndianRoundTrip | router/src/mock_server/src/mysql_protocol_encoder.h:176-184 | decoding what `append_int` wrote gives the value modulo 256^len: bits beyond the width are dropped |
| Primitives.DecodeLittleEndianRoundTrip | router/src/mock_server/src/mysql_protocol_encoder.h:176-184 | every byte string of length `n` is what `append_int` writes for the value it decodes to, so the encoding is onto |
| Primitives.AppendByte | router/src/mock_server/src/mysql_protocol_encoder.h:174 | appends exactly the one byte and keeps the buffer in front |
| Primitives.AppendStr | router/src/mock_server/src/mysql_protocol_encoder.h:186 | appends the string's bytes verbatim, with no length prefix and no terminator |
| Primitives.AppendBuffer | router/src/mock_server/src/mysql_protocol_encoder.h:187 | appends the other buffer's bytes verbatim |
| Primitives.LenencInt | router/src/mock_server/src/mysql_protocol_encoder.h:188 | a length-encoded integer is 1 to 9 bytes, and its first byte is never the NULL marker 0xFB or the ERR marker 0xFF |
| Primitives.LenencIntWidth | router/src/mock_server/src/mysql_protocol_encoder.h:188 | the encoding is 1 byte exactly when the value is below 251, 3 bytes exactly when it is below 2^16, 4 bytes exactly when it is below 2^24, and 9 bytes otherwise |
| Primitives.LenencIntBoundaries | router/src/mock_server/src/mysql_protocol_encoder.h:188 | the exact bytes at the width thresholds 250/251, 0xFFFF/0x10000 and 0xFFFFFF/0x1000000 |
| Primitives.LenencIntRoundTrip | router/src/mock_server/src/mysql_protocol_encoder.h:188 | the length-encoded-integer decoder gives the value back and leaves any following bytes untouched |
| Primitives.LenencIntInjective | router/src/mock_server/src/mysql_protocol_encoder.h:188 | distinct values have distinct encodings |
| Primitives.AppendLenencInt | router/src/mock_server/src/mysql_protocol_encoder.h:188 | keeps the buffer in front; the decoder reads exactly the value from the appended bytes |
| Primitives.LenencStrRoundTrip | router/src/mock_server/src/mysql_protocol_encoder.h:189 | the length-encoded-string decoder gives the string back and leaves any following bytes untouched |
| Primitives.AppendLenencStrIs | router/src/mock_server/src/mysql_protocol_encoder.h:189 | `append_lenenc_str` appends the byte length as a length-encoded integer, then the bytes |
| Primitives.LenencStrEmpty | router/src/mock_server/src/mysql_protocol_encoder.h:189 | the empty string is the single byte 0x00 |
| Primitives.AppendLenencStr | router/src/mock_server/src/mysql_protocol_encoder.h:189 | keeps the buffer in front, appends more bytes than the string holds, and the decoder reads exactly the string from them |
| Framing.MsgBegin | router/src/mock_server/src/mysql_protocol_encoder.h:172 | reserves four header bytes after the buffer's contents |
| Framing.MsgEnd | router/src/mock_server/src/mysql_protocol_encoder.h:173 | overwrites the header with the little-endian length of everything after it and with the sequence number, and leaves the payload unchanged |
| Framing.MsgEndIgnoresPlaceholder | router/src/mock_server/src/mysql_protocol_encoder.h:172-173 | the packet does not depend on what the reserved header bytes held |
| Framing.Frame | router/src/mock_server/src/mysql_protocol_encoder.h:172-173 | begin, append the payload, end: a client's header reader gets back exactly the sequence number and the payload |
| Framing.FrameLayout | router/src/mock_server/src/mysql_protocol_encoder.h:172-173 | a packet is the 3-byte little-endian payload length, the sequence number, then the payload |
| Framing.ParsePacketFrame | router/src/mock_server/src/mysql_protocol_encoder.h:172-173 | every byte string the header reader accepts is the frame of the packet it read |
| Framing.ContinuedPacketRejected | router/src/mock_server/src/mysql_protocol_encoder.h:172-173 | a header whose length field is ff ff ff announces that the payload continues, so it is never read as a complete packet |
| Framing.FrameInjective | router/src/mock_server/src/mysql_protocol_encoder.h:172-173 | distinct (sequence number, payload) pairs give distinct packets |
| Capabilities.OrBit | router/src/mock_server/src/mysql_protocol_encoder.h:92-94 | bit `k` of `a \| b` is set if and only if it is set in `a` or in `b` |
| Capabilities.Union | router/src/mock_server/src/mysql_protocol_encoder.h:92-94 | the or of two 32-bit masks is a 32-bit mask whose set bits are exactly the union of theirs |
| Capabilities.NamedBits | router/src/mock_server/src/mysql_protocol_encoder.h:81-94 | PROTOCOL_41, SECURE_CONNECTION and PLUGIN_AUTH are the single bits 9, 15 and 19 |
| Capabilities.DefaultCapabilities | router/src/mock_server/src/mysql_protocol_encoder.h:92-94 | the default mask PROTOCOL_41 \| SECURE_CONNECTION announces both of those and not PLUGIN_AUTH |
| Capabilities.SplitRoundTrip | router/src/mock_server/src/mysql_protocol_encoder.h:92-94 | the two 16-bit halves that the greeting sends rejoin into the original mask |
| Encoder.OkPayloadLayout | router/src/mock_server/src/mysql_protocol_encoder.h:56-58 | OK is 0x00, affected rows and last insert id as length-encoded integers, then status and warnings as 2 bytes each |
| Encoder.OkPayloadSize | router/src/mock_server/src/mysql_protocol_encoder.h:56-58 | an OK payload never exceeds 23 bytes |
| Encoder.OkRoundTrip | router/src/mock_server/src/mysql_protocol_encoder.h:56-58 | the OK decoder reads back affected rows, last insert id, status and warnings |
| Encoder.EncodeOk | router/src/mock_server/src/mysql_protocol_encoder.h:56-58 | the framed OK carries the given sequence number, and a client reads every field back; the defaults are all 0 |
| Encoder.OkExamplePayload | router/src/mock_server/src/mysql_protocol_encoder.h:56-58 | the exact payload of an OK with 5 affected rows, last insert id 10 and status 2 |
| Encoder.ErrorPayloadLayout | router/src/mock_server/src/mysql_protocol_encoder.h:69-71 | ERR is 0xFF, the 2-byte error code, the `#` marker, the SQL state and the message |
| Encoder.ErrorRoundTrip | router/src/mock_server/src/mysql_protocol_encoder.h:69-71 | with a five-byte SQL state, the ERR decoder reads back the code, the state and the message |
| Encoder.EncodeError | router/src/mock_server/src/mysql_protocol_encoder.h:69-71 | the framed ERR carries the sequence number; it holds the state and message verbatim after the 4-byte prefix, and a client reads back every field when the state is five bytes |
| Encoder.ErrorExamplePayload | router/src/mock_server/src/mysql_protocol_encoder.h:37 | the parse error 1064 is written as the bytes 0x28 0x04, followed by `#`, the SQL state "42000" and the message |
| Encoder.EofRoundTrip | router/src/mock_server/src/mysql_protocol_encoder.h:158-159 | an EOF payload is 5 bytes, and the EOF decoder reads back warnings and status |
| Encoder.EncodeEof | router/src/mock_server/src/mysql_protocol_encoder.h:158-159 | the framed EOF is 9 bytes and carries the sequence number, and a client reads back status and warnings |
| Encoder.AuthSwitchPayloadLayout | router/src/mock_server/src/mysql_protocol_encoder.h:111-113 | AuthSwitchRequest is 0xFE, the plugin name, 0x00, the nonce, 0x00 |
| Encoder.AuthSwitchLayout | router/src/mock_server/src/mysql_protocol_encoder.h:106-113 | the nonce is copied without a terminator of its own and followed by exactly one added 0x00 |
| Encoder.AuthSwitchRoundTrip | router/src/mock_server/src/mysql_protocol_encoder.h:106-113 | for a plugin name without 0x00, a client reads back the name and the nonce, with the added terminator stripped |
| Encoder.EncodeAuthSwitch | router/src/mock_server/src/mysql_protocol_encoder.h:106-113 | the framed message carries the sequence number and that payload, and a client reads it back whenever the name has no 0x00 |
| Encoder.EncodeColumnCount | router/src/mock_server/src/mysql_protocol_encoder.h:123 | the framed packet carries the sequence number, and its payload is exactly one length-encoded integer holding the column count |
| Encoder.ColumnMetaPayloadLayout | router/src/mock_server/src/mysql_protocol_encoder.h:133-134 | a column definition is catalog "def", schema, table, original table, name and original name as length-encoded strings, then 0x0C and the twelve fixed bytes |
| Encoder.ColumnMetaPayloadSize | router/src/mock_server/src/mysql_protocol_encoder.h:133-134 | beyond its five names, a column definition takes between 22 and 62 bytes |
| Encoder.ColumnMetaRoundTrip | router/src/mock_server/src/mysql_protocol_encoder.h:125-134 | the column-definition decoder reads back every field of the column |
| Encoder.EncodeColumnMeta | router/src/mock_server/src/mysql_protocol_encoder.h:125-134 | the framed packet carries the sequence number, and a client reads the column back |
| Encoder.NullAndEmptyDiffer | router/src/mock_server/src/mysql_protocol_encoder.h:136-147 | a NULL field is the byte 0xFB and an empty string is the byte 0x00, so a client tells them apart |
| Encoder.RowPayloadFirst | router/src/mock_server/src/mysql_protocol_encoder.h:145-147 | the fields, appended in order, can be read from the front: the first field followed by the rest of the row |
| Encoder.RowRoundTrip | router/src/mock_server/src/mysql_protocol_encoder.h:136-147 | the text-row decoder reads back every field in order, NULLs included |
| Encoder.EncodeRow | router/src/mock_server/src/mysql_protocol_encoder.h:136-147 | the framed row carries the sequence number, and a client reads back the field values |
| Encoder.NonceParts | router/src/mock_server/src/mysql_protocol_encoder.h:79 | nonce part 1 is 8 bytes; part 2 is exactly MAX(13, nonce length + 1 - 8) bytes, the length HandshakeV10 reads for the announced length, and ends in 0x00; together they hold the nonce verbatim, zero-filled to 20 bytes |
| Encoder.GreetingPayloadLayout | router/src/mock_server/src/mysql_protocol_encoder.h:88-96 | the greeting is the opening fields, the fixed-width fields, part 2 of the nonce, then the plugin name, in that order |
| Encoder.HandshakeIdentRoundTrip | router/src/mock_server/src/mysql_protocol_encoder.h:88-91 | a client reads back protocol version 10, the server version up to its terminator, the connection id and nonce part 1 |
| Encoder.HandshakeFlagsRoundTrip | router/src/mock_server/src/mysql_protocol_encoder.h:92-96 | a client rejoins the two 16-bit capability halves into the full mask and reads back character set, status and the auth-data length |
| Encoder.NoncePart2RoundTrip | router/src/mock_server/src/mysql_protocol_encoder.h:79-94 | a client reads part 2 whole, up to its terminator, for every nonce of up to 254 bytes with PLUGIN_AUTH and up to 20 bytes without; the two parts rejoin into the zero-filled nonce |
| Encoder.UnannouncedNonceCut | router/src/mock_server/src/mysql_protocol_encoder.h:79-94 | without PLUGIN_AUTH the length byte is 0, so of a nonce longer than 20 bytes a client reads only the first 20 and is left with the rest of part 2 in front of what follows |
| Encoder.PluginNameRoundTrip | router/src/mock_server/src/mysql_protocol_encoder.h:81-82 | a client reads a plugin name exactly when PLUGIN_AUTH is set, and nothing otherwise |
| Encoder.GreetingPayloadFields | router/src/mock_server/src/mysql_protocol_encoder.h:79-96 | the payload length is fixed by the field lengths, and the auth-data length byte is the nonce length plus part 2's terminator, truncated to 8 bits, with PLUGIN_AUTH, 0 without |
| Encoder.GreetingRoundTrip | router/src/mock_server/src/mysql_protocol_encoder.h:73-96 | a client reads back every field of the greeting: version, connection id, the zero-filled nonce, capabilities, character set, status, and the plugin name exactly when PLUGIN_AUTH is set; this holds for a version free of 0x00, and for a nonce of up to 254 bytes and a name free of 0x00 with PLUGIN_AUTH, or a nonce of up to 20 bytes without it |
| Encoder.EncodeGreeting | router/src/mock_server/src/mysql_protocol_encoder.h:88-96 | the framed greeting carries the sequence number and that payload, and a client reads the greeting back under the conditions of `GreetingRoundTrip`; the defaults are version "8.0.5", id 1, nonce "123456789\|123456789\|", PROTOCOL_41 \| SECURE_CONNECTION, "mysql_native_password", character set 0 and status 0 |
| Encoder.EncodeAuthFast | router/src/mock_server/src/mysql_protocol_encoder.h:161-169 | the framed packet carries the sequence number and the single fast-auth success byte 0x03 |

## Left out

- The bodies of every member other than `append_int` follow the protocol documentation named above, because `mysql_protocol_encoder.cc` is not part of this model.
- `std::vector::reserve` and the `enable_if` guard on `append_int`: they affect allocation and overload resolution, not the bytes.
- The integer type `T` of `append_int` and its shift: the value is modelled as a non-negative number, and `len` may exceed `sizeof(T)`. For a non-negative `T`, the shifted value reaches 0 and the loop then pushes 0x00 bytes, as the model does. Sign extension when shifting a negative signed `T` is not modelled.
- Packets whose payload reaches 2^24 - 1 bytes: the protocol splits such payloads across several packets. A length field of ff ff ff announces a continuation. Every builder requires its payload to be at most 2^24 - 2 bytes, so that it fits a single packet, and no splitting is modelled. The column-definition and greeting builders state this as a bound on their string arguments. The five names may total at most 2^24 - 64 bytes. Version, nonce and plugin name may total at most 2^24 - 49 bytes. Each bound leaves room for the largest fixed part of its payload.
- Encoder.EncodeError: a client reads the message back only when the SQL state is exactly five bytes. The encoder copies the state as given and does not check its length, so the contract states only that the bytes are verbatim in the other cases.
- Encoder.GreetingRoundTrip: without PLUGIN_AUTH, a nonce longer than 20 bytes is not read back. The length byte is then 0 and HandshakeV10 fixes part 2 at 13 bytes; `UnannouncedNonceCut` states what a client reads instead. With PLUGIN_AUTH, a nonce of 255 bytes or more overflows the 8-bit length byte.
- Encoder.NoncePart2RoundTrip: covers every nonce whose part-2 length reaches the client. That is up to 254 bytes with PLUGIN_AUTH and up to 20 without. A longer nonce without PLUGIN_AUTH is cut as `UnannouncedNonceCut` states.
- Encoder.NonceParts: the zero bytes that fill a nonce shorter than 20 bytes up to the part lengths are a modelling choice. HandshakeV10 fixes only the part lengths, and the header shows no padding. The round trips return the nonce with these zeros.
- Encoder.EncodeGreeting: nonce part 2 and the reserved bytes are written whatever SECURE_CONNECTION says. The auth-data length byte is the nonce length plus part 2's terminator, truncated to 8 bits. This is the length HandshakeV10 reads: a 20-byte nonce announces 21.
- Encoder.EncodeRow: the `columns_info` argument does not change the bytes of a text row and is not a parameter. Row values are byte strings, or NULL.
- Encoder.EncodeColumnMeta: the catalog is always "def". The `column_info_type` map is a record of typed fields, so a missing key or a malformed number in the map is not modelled.
- `json_statement_reader.h`, `mysql_protocol_common.h` and the session code that sends the buffers: I/O and parsing of the mock's statement files are outside the encoder.
