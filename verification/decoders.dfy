/** Client-side readers of each message payload the encoder produces. They
    follow the protocol's field order independently of how the encoder
    builds the payload, and the encoder's round-trip lemmas are stated
    against them. */
module Decoders {
  import opened Wrappers
  import opened Primitives
  import opened Capabilities
  import opened Reader
  import opened Protocol

  /** OK_Packet: marker, two length-encoded integers, status, warnings. */
  function DecodeOk(p: Bytes): Option<OkFields>
  {
    var (marker, r0) :- TakeInt(p, 1);
    if marker != OK_MARKER then None else
    var (affectedRows, r1) :- DecodeLenencInt(r0);
    var (lastInsertId, r2) :- DecodeLenencInt(r1);
    var (status, r3) :- TakeInt(r2, 2);
    var (warnings, r4) :- TakeInt(r3, 2);
    if r4 != [] then None else Some(OkFields(affectedRows, lastInsertId, status, warnings))
  }

  /** ERR_Packet: marker, code, '#', five bytes of SQL state, then the
      message up to the end of the packet. */
  function DecodeError(p: Bytes): Option<ErrorFields>
  {
    var (marker, r0) :- TakeInt(p, 1);
    if marker != ERR_MARKER then None else
    var (code, r1) :- TakeInt(r0, 2);
    var (hash, r2) :- TakeInt(r1, 1);
    if hash != SQL_STATE_MARKER then None else
    var (sqlState, message) :- Take(r2, SQL_STATE_LENGTH);
    Some(ErrorFields(code, sqlState, message))
  }

  /** EOF_Packet in the protocol-41 layout: marker, warnings, status. */
  function DecodeEof(p: Bytes): Option<EofFields>
  {
    var (marker, r0) :- TakeInt(p, 1);
    if marker != EOF_MARKER then None else
    var (warnings, r1) :- TakeInt(r0, 2);
    var (status, r2) :- TakeInt(r1, 2);
    if r2 != [] then None else Some(EofFields(warnings, status))
  }

  /** Protocol::AuthSwitchRequest: marker, NUL-terminated plugin name, then
      the plugin data up to a final 0x00 that ends the packet. */
  function DecodeAuthSwitch(p: Bytes): Option<AuthSwitchFields>
  {
    var (marker, r0) :- TakeInt(p, 1);
    if marker != AUTH_SWITCH_MARKER then None else
    var (name, r1) :- TakeCString(r0);
    if |r1| == 0 || r1[|r1| - 1] != 0 then None
    else Some(AuthSwitchFields(name, r1[..|r1| - 1]))
  }

  /** The column-count packet that opens a text result set. */
  function DecodeColumnCount(p: Bytes): Option<nat>
  {
    var (n, rest) :- DecodeLenencInt(p);
    if rest != [] then None else Some(n)
  }

  /** Protocol::ColumnDefinition41. */
  function DecodeColumnMeta(p: Bytes): Option<ColumnInfo>
  {
    var (catalog, r0) :- DecodeLenencStr(p);
    if catalog != CATALOG then None else
    var (schema, r1) :- DecodeLenencStr(r0);
    var (table, r2) :- DecodeLenencStr(r1);
    var (origTable, r3) :- DecodeLenencStr(r2);
    var (name, r4) :- DecodeLenencStr(r3);
    var (origName, r5) :- DecodeLenencStr(r4);
    var (fixedLength, r6) :- DecodeLenencInt(r5);
    if fixedLength != FIXED_FIELDS_LENGTH then None else
    var (characterSet, r7) :- TakeInt(r6, 2);
    var (length, r8) :- TakeInt(r7, 4);
    var (columnType, r9) :- TakeInt(r8, 1);
    var (flags, r10) :- TakeInt(r9, 2);
    var (decimals, r11) :- TakeInt(r10, 1);
    if r11 != [0, 0] then None else
    assert Pow256(1) == 0x100 && Pow256(2) == 0x1_0000 && Pow256(4) == 0x1_0000_0000;
    Some(ColumnInfo(schema, table, origTable, name, origName,
                    characterSet, length, columnType, flags, decimals))
  }

  /** ProtocolText::ResultsetRow: one field after the other to the end of
      the packet, 0xFB for NULL, a length-encoded string otherwise. */
  function DecodeRow(p: Bytes): Option<seq<RowValue>>
    decreases |p|
  {
    if |p| == 0 then Some([])
    else if p[0] == NULL_MARKER then
      var rest :- DecodeRow(p[1..]);
      Some([None] + rest)
    else
      var (value, r) :- DecodeLenencStr(p);
      var rest :- DecodeRow(r);
      Some([Some(value)] + rest)
  }

  /** The opening fields of Protocol::HandshakeV10: protocol version,
      NUL-terminated server version, connection id, auth-plugin-data-part-1
      and the filler byte. */
  function DecodeHandshakeHead(p: Bytes): Option<(HandshakeHead, Bytes)>
  {
    var (protocolVersion, r0) :- TakeInt(p, 1);
    if protocolVersion != PROTOCOL_VERSION then None else
    var (version, r1) :- TakeCString(r0);
    var (connectionId, r2) :- TakeInt(r1, 4);
    var (part1, r3) :- Take(r2, NONCE_PART1_LENGTH);
    var (filler, r4) :- TakeInt(r3, 1);
    Some((HandshakeHead(version, connectionId, part1), r4))
  }

  /** The fixed-width fields of Protocol::HandshakeV10 that follow: the two
      capability halves around character set and status, the
      auth-plugin-data length and the reserved bytes. */
  function DecodeHandshakeFlags(p: Bytes): Option<(HandshakeFlags, Bytes)>
  {
    var (capsLow, r0) :- TakeInt(p, 2);
    var (characterSet, r1) :- TakeInt(r0, 1);
    var (statusFlags, r2) :- TakeInt(r1, 2);
    var (capsHigh, r3) :- TakeInt(r2, 2);
    var (authDataLength, r4) :- TakeInt(r3, 1);
    var (reserved, r5) :- Take(r4, RESERVED_LENGTH);
    Some((HandshakeFlags(JoinHalves(capsLow, capsHigh), characterSet, statusFlags, authDataLength), r5))
  }

  /** auth-plugin-data-part-2: MAX(13, auth-plugin-data length - 8) bytes,
      of which the last is a terminator and not part of the nonce. */
  function DecodeNoncePart2(authDataLength: nat, p: Bytes): Option<(Bytes, Bytes)>
  {
    var part2Length := if authDataLength - 8 > NONCE_PART2_MIN_LENGTH then authDataLength - 8
                       else NONCE_PART2_MIN_LENGTH;
    var (part2, rest) :- Take(p, part2Length);
    Some((part2[..|part2| - 1], rest))
  }

  /** What follows the nonce: a NUL-terminated plugin name ending the
      packet when the capabilities hold PLUGIN_AUTH, nothing otherwise. */
  function DecodePluginName(capabilities: nat, p: Bytes): Option<Option<Bytes>>
  {
    if !Has(capabilities, PLUGIN_AUTH_BIT) then (if p == [] then Some(None) else None)
    else
      var (name, rest) :- TakeCString(p);
      if rest == [] then Some(Some(name)) else None
  }

  /** Protocol::HandshakeV10 as a client reads it: the length of part 2 of
      the nonce is MAX(13, auth-plugin-data length - 8), and the plugin name
      is present exactly when the announced capabilities hold PLUGIN_AUTH. */
  function DecodeGreeting(p: Bytes): Option<Greeting>
  {
    var (head, r0) :- DecodeHandshakeHead(p);
    var (flags, r1) :- DecodeHandshakeFlags(r0);
    var (part2, r2) :- DecodeNoncePart2(flags.authDataLength, r1);
    var name :- DecodePluginName(flags.capabilities, r2);
    Some(Greeting(head.version, head.connectionId, head.part1 + part2, flags.capabilities,
                  flags.characterSet, flags.statusFlags, name))
  }
}
