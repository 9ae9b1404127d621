/** The message encoder: one builder per server message. Each builder
    appends the fields of its message to a payload with the primitive
    appends and frames it with the packet framer; parameters keep the
    defaults the encoder declares. Each builder's contract reads the packet
    back with the client-side decoders and gets its inputs back. */
module Encoder {
  import opened Wrappers
  import opened Primitives
  import opened Capabilities
  import opened Framing
  import opened Reader
  import opened Protocol
  import opened Decoders

  // ---------------------------------------------------------------------
  // OK
  // ---------------------------------------------------------------------

  function OkPayload(affectedRows: uint64, lastInsertId: uint64, status: uint16, warnings: uint16): Bytes
  {
    var b := AppendByte([], OK_MARKER);
    var b := AppendLenencInt(b, affectedRows);
    var b := AppendLenencInt(b, lastInsertId);
    var b := AppendInt(b, status, 2);
    AppendInt(b, warnings, 2)
  }

  lemma OkPayloadLayout(affectedRows: uint64, lastInsertId: uint64, status: uint16, warnings: uint16)
    ensures OkPayload(affectedRows, lastInsertId, status, warnings)
         == [OK_MARKER] + (LenencInt(affectedRows) + (LenencInt(lastInsertId)
            + (LittleEndian(status, 2) + LittleEndian(warnings, 2))))
  {
    var b1: Bytes := [OK_MARKER];
    var b2 := b1 + LenencInt(affectedRows);
    var b3 := b2 + LenencInt(lastInsertId);
    var b4 := b3 + LittleEndian(status, 2);
    var t3 := LittleEndian(status, 2) + LittleEndian(warnings, 2);
    var t2 := LenencInt(lastInsertId) + t3;
    assert OkPayload(affectedRows, lastInsertId, status, warnings) == b4 + LittleEndian(warnings, 2);
    ConcatAssoc(b3, LittleEndian(status, 2), LittleEndian(warnings, 2));
    ConcatAssoc(b2, LenencInt(lastInsertId), t3);
    ConcatAssoc(b1, LenencInt(affectedRows), t2);
  }

  lemma OkPayloadSize(affectedRows: uint64, lastInsertId: uint64, status: uint16, warnings: uint16)
    ensures |OkPayload(affectedRows, lastInsertId, status, warnings)| <= 23
  {
    OkPayloadLayout(affectedRows, lastInsertId, status, warnings);
    var a, b := LenencInt(affectedRows), LenencInt(lastInsertId);
    assert |a| <= 9 && |b| <= 9;
  }

  lemma OkRoundTrip(affectedRows: uint64, lastInsertId: uint64, status: uint16, warnings: uint16)
    ensures DecodeOk(OkPayload(affectedRows, lastInsertId, status, warnings))
         == Some(OkFields(affectedRows, lastInsertId, status, warnings))
  {
    var r3 := LittleEndian(warnings, 2);
    var r2 := LittleEndian(status, 2) + r3;
    var r1 := LenencInt(lastInsertId) + r2;
    var r0 := LenencInt(affectedRows) + r1;
    var p := [OK_MARKER] + r0;
    assert OkPayload(affectedRows, lastInsertId, status, warnings) == p by {
      OkPayloadLayout(affectedRows, lastInsertId, status, warnings);
    }
    assert TakeInt(p, 1) == Some((OK_MARKER as nat, r0)) by {
      assert p[..1] == [OK_MARKER] && p[1..] == r0;
    }
    assert DecodeLenencInt(r0) == Some((affectedRows as nat, r1)) by {
      LenencIntRoundTrip(affectedRows, r1);
    }
    assert DecodeLenencInt(r1) == Some((lastInsertId as nat, r2)) by {
      LenencIntRoundTrip(lastInsertId, r2);
    }
    assert TakeInt(r2, 2) == Some((status as nat, r3)) by {
      assert Pow256(2) == 0x1_0000;
      TakeIntConcat(status, 2, r3);
    }
    assert TakeInt(r3, 2) == Some((warnings as nat, [])) by {
      assert Pow256(2) == 0x1_0000;
      TakeIntConcat(warnings, 2, []);
      assert r3 + [] == r3;
    }
  }

  /** encode_ok_message. */
  function EncodeOk(seqNo: byte, affectedRows: uint64 := 0, lastInsertId: uint64 := 0,
                    status: uint16 := 0, warnings: uint16 := 0): (r: Bytes)
    ensures ParsePacket(r).Some? && ParsePacket(r).value.seqNo == seqNo
    ensures DecodeOk(ParsePacket(r).value.payload) == Some(OkFields(affectedRows, lastInsertId, status, warnings))
  {
    OkRoundTrip(affectedRows, lastInsertId, status, warnings);
    OkPayloadSize(affectedRows, lastInsertId, status, warnings);
    Frame(seqNo, OkPayload(affectedRows, lastInsertId, status, warnings))
  }

  /** The payload of an OK with 5 affected rows, last insert id 10 and status 2. */
  lemma OkExamplePayload()
    ensures OkPayload(5, 10, 2, 0) == [0x00, 5, 10, 2, 0, 0, 0]
  {
    var payload: Bytes := [0x00, 5, 10, 2, 0, 0, 0];
    assert [OK_MARKER] + (LenencInt(5) + (LenencInt(10) + (LittleEndian(2, 2) + LittleEndian(0, 2))))
        == payload by {
      assert LenencInt(5) == [5] && LenencInt(10) == [10];
      assert LittleEndian(2, 2) == [2, 0] && LittleEndian(0, 2) == [0, 0];
    }
    OkPayloadLayout(5, 10, 2, 0);
  }

  // ---------------------------------------------------------------------
  // Error
  // ---------------------------------------------------------------------

  function ErrorPayload(errorCode: uint16, sqlState: Bytes, errorMsg: Bytes): Bytes
  {
    var b := AppendByte([], ERR_MARKER);
    var b := AppendInt(b, errorCode, 2);
    var b := AppendByte(b, SQL_STATE_MARKER);
    var b := AppendStr(b, sqlState);
    AppendStr(b, errorMsg)
  }

  lemma ErrorPayloadLayout(errorCode: uint16, sqlState: Bytes, errorMsg: Bytes)
    ensures ErrorPayload(errorCode, sqlState, errorMsg)
         == [ERR_MARKER] + (LittleEndian(errorCode, 2) + ([SQL_STATE_MARKER] + (sqlState + errorMsg)))
  {
  }

  /** A five-byte SQL state is read back together with code and message;
      the message is whatever follows the state, to the end of the packet. */
  lemma ErrorRoundTrip(errorCode: uint16, sqlState: Bytes, errorMsg: Bytes)
    requires |sqlState| == SQL_STATE_LENGTH
    ensures DecodeError(ErrorPayload(errorCode, sqlState, errorMsg))
         == Some(ErrorFields(errorCode, sqlState, errorMsg))
  {
    var p := ErrorPayload(errorCode, sqlState, errorMsg);
    var r2 := sqlState + errorMsg;
    var r1 := [SQL_STATE_MARKER] + r2;
    var r0 := LittleEndian(errorCode, 2) + r1;
    ErrorPayloadLayout(errorCode, sqlState, errorMsg);
    assert TakeInt(p, 1) == Some((ERR_MARKER as nat, r0)) by {
      assert p[..1] == [ERR_MARKER] && p[1..] == r0;
    }
    assert Pow256(2) == 0x1_0000;
    TakeIntConcat(errorCode, 2, r1);
    assert TakeInt(r1, 1) == Some((SQL_STATE_MARKER as nat, r2)) by {
      assert r1[..1] == [SQL_STATE_MARKER] && r1[1..] == r2;
    }
    TakeConcat(sqlState, errorMsg);
  }

  /** encode_error_message. The SQL state is copied as given: the caller
      supplies exactly five bytes for a client to read it back. */
  function EncodeError(seqNo: byte, errorCode: uint16, sqlState: Bytes, errorMsg: Bytes): (r: Bytes)
    requires 4 + |sqlState| + |errorMsg| <= MAX_PAYLOAD
    ensures ParsePacket(r).Some? && ParsePacket(r).value.seqNo == seqNo
    ensures |ParsePacket(r).value.payload| == 4 + |sqlState| + |errorMsg|
    ensures ParsePacket(r).value.payload[4..] == sqlState + errorMsg
    ensures |sqlState| == SQL_STATE_LENGTH ==>
              DecodeError(ParsePacket(r).value.payload) == Some(ErrorFields(errorCode, sqlState, errorMsg))
  {
    ErrorPayloadLayout(errorCode, sqlState, errorMsg);
    assert ErrorPayload(errorCode, sqlState, errorMsg)[4..] == sqlState + errorMsg;
    assert |sqlState| == SQL_STATE_LENGTH ==>
             DecodeError(ErrorPayload(errorCode, sqlState, errorMsg)) == Some(ErrorFields(errorCode, sqlState, errorMsg)) by {
      if |sqlState| == SQL_STATE_LENGTH {
        ErrorRoundTrip(errorCode, sqlState, errorMsg);
      }
    }
    Frame(seqNo, ErrorPayload(errorCode, sqlState, errorMsg))
  }

  /** The payload of the parse error with SQL state "42000" and message
      "bad": 1064 is 0x0428, written low byte first. */
  lemma ErrorExamplePayload()
    ensures ErrorPayload(MYSQL_PARSE_ERROR, [0x34, 0x32, 0x30, 0x30, 0x30], [0x62, 0x61, 0x64])
         == [0xFF, 0x28, 0x04, 0x23, 0x34, 0x32, 0x30, 0x30, 0x30, 0x62, 0x61, 0x64]
  {
    assert [ERR_MARKER] + (LittleEndian(MYSQL_PARSE_ERROR, 2) + ([SQL_STATE_MARKER]
             + ([0x34, 0x32, 0x30, 0x30, 0x30] + [0x62, 0x61, 0x64])))
        == [0xFF, 0x28, 0x04, 0x23, 0x34, 0x32, 0x30, 0x30, 0x30, 0x62, 0x61, 0x64] by {
      assert LittleEndian(1064, 2) == [0x28, 0x04];
    }
    ErrorPayloadLayout(MYSQL_PARSE_ERROR, [0x34, 0x32, 0x30, 0x30, 0x30], [0x62, 0x61, 0x64]);
  }

  // ---------------------------------------------------------------------
  // EOF
  // ---------------------------------------------------------------------

  function EofPayload(status: uint16, warnings: uint16): Bytes
  {
    var b := AppendByte([], EOF_MARKER);
    var b := AppendInt(b, warnings, 2);
    AppendInt(b, status, 2)
  }

  lemma EofRoundTrip(status: uint16, warnings: uint16)
    ensures |EofPayload(status, warnings)| == 5
    ensures DecodeEof(EofPayload(status, warnings)) == Some(EofFields(warnings, status))
  {
    var p := EofPayload(status, warnings);
    var r1 := LittleEndian(status, 2);
    var r0 := LittleEndian(warnings, 2) + r1;
    assert p == [EOF_MARKER] + r0;
    assert TakeInt(p, 1) == Some((EOF_MARKER as nat, r0)) by {
      assert p[..1] == [EOF_MARKER] && p[1..] == r0;
    }
    assert Pow256(2) == 0x1_0000;
    TakeIntConcat(warnings, 2, r1);
    TakeIntConcat(status, 2, []);
    assert r1 + [] == r1;
  }

  /** encode_eof_message: the warnings precede the status on the wire. */
  function EncodeEof(seqNo: byte, status: uint16 := 0, warnings: uint16 := 0): (r: Bytes)
    ensures |r| == 9
    ensures ParsePacket(r).Some? && ParsePacket(r).value.seqNo == seqNo
    ensures DecodeEof(ParsePacket(r).value.payload) == Some(EofFields(warnings, status))
  {
    EofRoundTrip(status, warnings);
    Frame(seqNo, EofPayload(status, warnings))
  }

  // ---------------------------------------------------------------------
  // AuthSwitch
  // ---------------------------------------------------------------------

  function AuthSwitchPayload(authPluginName: Bytes, authPluginData: Bytes): Bytes
  {
    var b := AppendByte([], AUTH_SWITCH_MARKER);
    var b := AppendStr(b, authPluginName);
    var b := AppendByte(b, 0);
    var b := AppendStr(b, authPluginData);
    AppendByte(b, 0)
  }

  lemma AuthSwitchPayloadLayout(authPluginName: Bytes, authPluginData: Bytes)
    ensures AuthSwitchPayload(authPluginName, authPluginData)
         == [AUTH_SWITCH_MARKER] + (authPluginName + [0] + (authPluginData + [0]))
  {
  }

  /** A plugin name free of 0x00 is read back, and so is the nonce: the
      single 0x00 the encoder appends is the one the client strips. */
  lemma AuthSwitchRoundTrip(authPluginName: Bytes, authPluginData: Bytes)
    requires 0 !in authPluginName
    ensures DecodeAuthSwitch(AuthSwitchPayload(authPluginName, authPluginData))
         == Some(AuthSwitchFields(authPluginName, authPluginData))
  {
    var p := AuthSwitchPayload(authPluginName, authPluginData);
    var r1 := authPluginData + [0];
    var r0 := authPluginName + [0] + r1;
    AuthSwitchPayloadLayout(authPluginName, authPluginData);
    assert TakeInt(p, 1) == Some((AUTH_SWITCH_MARKER as nat, r0)) by {
      assert p[..1] == [AUTH_SWITCH_MARKER] && p[1..] == r0;
    }
    TakeCStringConcat(authPluginName, r1);
    assert r1[..|r1| - 1] == authPluginData;
  }

  /** The nonce follows the marker, the plugin name and its terminator, and
      is followed by exactly one added 0x00. */
  lemma AuthSwitchLayout(authPluginName: Bytes, authPluginData: Bytes)
    ensures var p := AuthSwitchPayload(authPluginName, authPluginData);
              && |p| == 3 + |authPluginName| + |authPluginData|
              && p[0] == AUTH_SWITCH_MARKER
              && p[1..1 + |authPluginName|] == authPluginName && p[1 + |authPluginName|] == 0
              && p[2 + |authPluginName|..|p| - 1] == authPluginData && p[|p| - 1] == 0
  {
    var p := AuthSwitchPayload(authPluginName, authPluginData);
    AuthSwitchPayloadLayout(authPluginName, authPluginData);
    var n := |authPluginName|;
    assert p[1..1 + n] == authPluginName;
    assert p[2 + n..|p| - 1] == authPluginData;
  }

  /** encode_auth_switch_message. */
  function EncodeAuthSwitch(seqNo: byte, authPluginName: Bytes, authPluginData: Bytes): (r: Bytes)
    requires 3 + |authPluginName| + |authPluginData| <= MAX_PAYLOAD
    ensures ParsePacket(r).Some? && ParsePacket(r).value.seqNo == seqNo
    ensures ParsePacket(r).value.payload == AuthSwitchPayload(authPluginName, authPluginData)
    ensures 0 !in authPluginName ==>
              DecodeAuthSwitch(ParsePacket(r).value.payload) == Some(AuthSwitchFields(authPluginName, authPluginData))
  {
    AuthSwitchLayout(authPluginName, authPluginData);
    assert 0 !in authPluginName ==>
             DecodeAuthSwitch(AuthSwitchPayload(authPluginName, authPluginData))
             == Some(AuthSwitchFields(authPluginName, authPluginData)) by {
      if 0 !in authPluginName {
        AuthSwitchRoundTrip(authPluginName, authPluginData);
      }
    }
    Frame(seqNo, AuthSwitchPayload(authPluginName, authPluginData))
  }

  // ---------------------------------------------------------------------
  // ColumnCount
  // ---------------------------------------------------------------------

  /** encode_columns_number_message. */
  function EncodeColumnCount(seqNo: byte, number: uint64): (r: Bytes)
    ensures ParsePacket(r).Some? && ParsePacket(r).value.seqNo == seqNo
    ensures DecodeColumnCount(ParsePacket(r).value.payload) == Some(number)
  {
    var p := AppendLenencInt([], number);
    assert p == p[0..];
    Frame(seqNo, p)
  }

  // ---------------------------------------------------------------------
  // AuthFast
  // ---------------------------------------------------------------------

  /** encode_auth_fast_message: the single fast-authentication success byte. */
  function EncodeAuthFast(seqNo: byte): (r: Bytes)
    ensures ParsePacket(r) == Some(Packet(seqNo, [AUTH_FAST_OK]))
  {
    Frame(seqNo, AppendByte([], AUTH_FAST_OK))
  }

  // ---------------------------------------------------------------------
  // ColumnMetadata
  // ---------------------------------------------------------------------

  function ColumnMetaPayload(c: ColumnInfo): Bytes
    requires ColumnFits(c)
  {
    var b := AppendLenencStr([], CATALOG);
    var b := AppendLenencStr(b, c.schema);
    var b := AppendLenencStr(b, c.table);
    var b := AppendLenencStr(b, c.origTable);
    var b := AppendLenencStr(b, c.name);
    var b := AppendLenencStr(b, c.origName);
    var b := AppendLenencInt(b, FIXED_FIELDS_LENGTH);
    AppendColumnFixedFields(b, c)
  }

  /** Character set, column length, type, flags, decimals and two filler bytes. */
  function AppendColumnFixedFields(buffer: Bytes, c: ColumnInfo): Bytes
  {
    var b := AppendInt(buffer, c.characterSet, 2);
    var b := AppendInt(b, c.length, 4);
    var b := AppendInt(b, c.columnType, 1);
    var b := AppendInt(b, c.flags, 2);
    var b := AppendInt(b, c.decimals, 1);
    var b := AppendByte(b, 0);
    AppendByte(b, 0)
  }

  /** The twelve bytes announced by the length-encoded 0x0C, and the two filler bytes. */
  function ColumnFixedFields(c: ColumnInfo): Bytes
  {
    LittleEndian(c.characterSet, 2) + (LittleEndian(c.length, 4) + (LittleEndian(c.columnType, 1)
      + (LittleEndian(c.flags, 2) + (LittleEndian(c.decimals, 1) + [0, 0]))))
  }

  lemma AppendColumnFixedFieldsIs(buffer: Bytes, c: ColumnInfo)
    ensures AppendColumnFixedFields(buffer, c) == buffer + ColumnFixedFields(c)
  {
    var b1 := buffer + LittleEndian(c.characterSet, 2);
    var b2 := b1 + LittleEndian(c.length, 4);
    var b3 := b2 + LittleEndian(c.columnType, 1);
    var b4 := b3 + LittleEndian(c.flags, 2);
    var b5 := b4 + LittleEndian(c.decimals, 1);
    var t5 := LittleEndian(c.decimals, 1) + [0, 0];
    var t4 := LittleEndian(c.flags, 2) + t5;
    var t3 := LittleEndian(c.columnType, 1) + t4;
    var t2 := LittleEndian(c.length, 4) + t3;
    assert AppendColumnFixedFields(buffer, c) == b5 + [0, 0];
    ConcatAssoc(b4, LittleEndian(c.decimals, 1), [0, 0]);
    ConcatAssoc(b3, LittleEndian(c.flags, 2), t5);
    ConcatAssoc(b2, LittleEndian(c.columnType, 1), t4);
    ConcatAssoc(b1, LittleEndian(c.length, 4), t3);
    ConcatAssoc(buffer, LittleEndian(c.characterSet, 2), t2);
  }

  lemma ColumnMetaPayloadLayout(c: ColumnInfo)
    requires ColumnFits(c)
    ensures ColumnMetaPayload(c)
         == LenencStr(CATALOG) + (LenencStr(c.schema) + (LenencStr(c.table) + (LenencStr(c.origTable)
            + (LenencStr(c.name) + (LenencStr(c.origName)
            + (LenencInt(FIXED_FIELDS_LENGTH) + ColumnFixedFields(c)))))))
  {
    var b0 := AppendLenencStr([], CATALOG);
    var b1 := AppendLenencStr(b0, c.schema);
    var b2 := AppendLenencStr(b1, c.table);
    var b3 := AppendLenencStr(b2, c.origTable);
    var b4 := AppendLenencStr(b3, c.name);
    var b5 := AppendLenencStr(b4, c.origName);
    var b6 := AppendLenencInt(b5, FIXED_FIELDS_LENGTH);
    var fixed := ColumnFixedFields(c);
    var t6 := LenencInt(FIXED_FIELDS_LENGTH) + fixed;
    var t5 := LenencStr(c.origName) + t6;
    var t4 := LenencStr(c.name) + t5;
    var t3 := LenencStr(c.origTable) + t4;
    var t2 := LenencStr(c.table) + t3;
    var t1 := LenencStr(c.schema) + t2;
    assert ColumnMetaPayload(c) == b6 + fixed by {
      AppendColumnFixedFieldsIs(b6, c);
    }
    assert b6 + fixed == b5 + t6 by {
      ConcatAssoc(b5, LenencInt(FIXED_FIELDS_LENGTH), fixed);
    }
    assert b5 + t6 == b4 + t5 by {
      AppendLenencStrIs(b4, c.origName);
      ConcatAssoc(b4, LenencStr(c.origName), t6);
    }
    assert b4 + t5 == b3 + t4 by {
      AppendLenencStrIs(b3, c.name);
      ConcatAssoc(b3, LenencStr(c.name), t5);
    }
    assert b3 + t4 == b2 + t3 by {
      AppendLenencStrIs(b2, c.origTable);
      ConcatAssoc(b2, LenencStr(c.origTable), t4);
    }
    assert b2 + t3 == b1 + t2 by {
      AppendLenencStrIs(b1, c.table);
      ConcatAssoc(b1, LenencStr(c.table), t3);
    }
    assert b1 + t2 == b0 + t1 by {
      AppendLenencStrIs(b0, c.schema);
      ConcatAssoc(b0, LenencStr(c.schema), t2);
    }
    assert b0 == LenencStr(CATALOG) by {
      AppendLenencStrIs([], CATALOG);
      assert [] + LenencStr(CATALOG) == LenencStr(CATALOG);
    }
  }

  lemma ColumnFixedFieldsRoundTrip(c: ColumnInfo)
    ensures TakeInt(ColumnFixedFields(c), 2) == Some((c.characterSet as nat,
              LittleEndian(c.length, 4) + (LittleEndian(c.columnType, 1)
              + (LittleEndian(c.flags, 2) + (LittleEndian(c.decimals, 1) + [0, 0])))))
    ensures TakeInt(LittleEndian(c.length, 4) + (LittleEndian(c.columnType, 1)
              + (LittleEndian(c.flags, 2) + (LittleEndian(c.decimals, 1) + [0, 0]))), 4)
         == Some((c.length as nat, LittleEndian(c.columnType, 1)
              + (LittleEndian(c.flags, 2) + (LittleEndian(c.decimals, 1) + [0, 0]))))
    ensures TakeInt(LittleEndian(c.columnType, 1)
              + (LittleEndian(c.flags, 2) + (LittleEndian(c.decimals, 1) + [0, 0])), 1)
         == Some((c.columnType as nat, LittleEndian(c.flags, 2) + (LittleEndian(c.decimals, 1) + [0, 0])))
    ensures TakeInt(LittleEndian(c.flags, 2) + (LittleEndian(c.decimals, 1) + [0, 0]), 2)
         == Some((c.flags as nat, LittleEndian(c.decimals, 1) + [0, 0]))
    ensures TakeInt(LittleEndian(c.decimals, 1) + [0, 0], 1) == Some((c.decimals as nat, [0, 0]))
  {
    assert Pow256(1) == 0x100 && Pow256(2) == 0x1_0000 && Pow256(4) == 0x1_0000_0000;
    TakeIntConcat(c.characterSet, 2, LittleEndian(c.length, 4) + (LittleEndian(c.columnType, 1)
      + (LittleEndian(c.flags, 2) + (LittleEndian(c.decimals, 1) + [0, 0]))));
    TakeIntConcat(c.length, 4, LittleEndian(c.columnType, 1)
      + (LittleEndian(c.flags, 2) + (LittleEndian(c.decimals, 1) + [0, 0])));
    TakeIntConcat(c.columnType, 1, LittleEndian(c.flags, 2) + (LittleEndian(c.decimals, 1) + [0, 0]));
    TakeIntConcat(c.flags, 2, LittleEndian(c.decimals, 1) + [0, 0]);
    TakeIntConcat(c.decimals, 1, [0, 0]);
  }

  /** A client reads back every field of the column definition. */
  lemma ColumnMetaRoundTrip(c: ColumnInfo)
    requires ColumnFits(c)
    ensures DecodeColumnMeta(ColumnMetaPayload(c)) == Some(c)
  {
    var tail := ColumnFixedFields(c);
    var r5 := LenencInt(FIXED_FIELDS_LENGTH) + tail;
    var r4 := LenencStr(c.origName) + r5;
    var r3 := LenencStr(c.name) + r4;
    var r2 := LenencStr(c.origTable) + r3;
    var r1 := LenencStr(c.table) + r2;
    var r0 := LenencStr(c.schema) + r1;
    ColumnMetaPayloadLayout(c);
    LenencStrRoundTrip(CATALOG, r0);
    LenencStrRoundTrip(c.schema, r1);
    LenencStrRoundTrip(c.table, r2);
    LenencStrRoundTrip(c.origTable, r3);
    LenencStrRoundTrip(c.name, r4);
    LenencStrRoundTrip(c.origName, r5);
    LenencIntRoundTrip(FIXED_FIELDS_LENGTH, tail);
    ColumnFixedFieldsRoundTrip(c);
  }

  /** The summed length of the five names of a column definition. */
  function NamesLength(c: ColumnInfo): nat
  {
    |c.schema| + |c.table| + |c.origTable| + |c.name| + |c.origName|
  }

  /** Beyond its names, a column definition takes between 22 and 62 bytes:
      the catalog, five length prefixes of 1 to 9 bytes, 0x0C and the twelve
      fixed bytes. */
  lemma ColumnMetaPayloadSize(c: ColumnInfo)
    requires ColumnFits(c)
    ensures 22 + NamesLength(c) <= |ColumnMetaPayload(c)| <= 62 + NamesLength(c)
  {
    ColumnMetaPayloadLayout(c);
  }

  /** encode_column_meta_message. */
  function EncodeColumnMeta(seqNo: byte, c: ColumnInfo): (r: Bytes)
    requires NamesLength(c) <= MAX_PAYLOAD - 62
    ensures ParsePacket(r).Some? && ParsePacket(r).value.seqNo == seqNo
    ensures DecodeColumnMeta(ParsePacket(r).value.payload) == Some(c)
  {
    ColumnMetaPayloadSize(c);
    ColumnMetaRoundTrip(c);
    Frame(seqNo, ColumnMetaPayload(c))
  }

  // ---------------------------------------------------------------------
  // Row
  // ---------------------------------------------------------------------

  /** One field of a text row: 0xFB for NULL, the length-encoded string otherwise. */
  function AppendRowValue(buffer: Bytes, value: RowValue): Bytes
    requires ValueFits(value)
  {
    if value.None? then AppendByte(buffer, NULL_MARKER) else AppendLenencStr(buffer, value.value)
  }

  /** The bytes one field adds. */
  function RowValueBytes(value: RowValue): Bytes
    requires ValueFits(value)
  {
    if value.None? then [NULL_MARKER] else LenencStr(value.value)
  }

  /** The fields appended in order, as the encoder's loop over the row does. */
  function RowPayload(values: seq<RowValue>): Bytes
    requires forall i :: 0 <= i < |values| ==> ValueFits(values[i])
  {
    if |values| == 0 then []
    else AppendRowValue(RowPayload(values[..|values| - 1]), values[|values| - 1])
  }

  /** NULL is the single byte 0xFB, the empty string the single byte 0x00:
      a client tells them apart. */
  lemma NullAndEmptyDiffer()
    ensures RowValueBytes(None) == [0xFB]
    ensures RowValueBytes(Some([])) == [0x00]
  {
    LenencStrEmpty();
  }

  lemma AppendRowValueIs(buffer: Bytes, value: RowValue)
    requires ValueFits(value)
    ensures AppendRowValue(buffer, value) == buffer + RowValueBytes(value)
  {
    if value.Some? {
      AppendLenencStrIs(buffer, value.value);
    }
  }

  /** The row with one more field is the row followed by that field. */
  lemma RowPayloadLast(values: seq<RowValue>)
    requires |values| > 0
    requires forall i :: 0 <= i < |values| ==> ValueFits(values[i])
    ensures RowPayload(values) == RowPayload(values[..|values| - 1]) + RowValueBytes(values[|values| - 1])
  {
    AppendRowValueIs(RowPayload(values[..|values| - 1]), values[|values| - 1]);
  }

  /** Read from the front, the row is its first field followed by the rest. */
  lemma {:induction false} RowPayloadFirst(values: seq<RowValue>)
    requires |values| > 0
    requires forall i :: 0 <= i < |values| ==> ValueFits(values[i])
    ensures RowPayload(values) == RowValueBytes(values[0]) + RowPayload(values[1..])
    decreases |values|
  {
    var n := |values|;
    var init, last := values[..n - 1], values[n - 1];
    RowPayloadLast(values);
    if n == 1 {
      assert init == [] && values[1..] == [];
    } else {
      var tail := values[1..];
      RowPayloadFirst(init);
      assert init[1..] == tail[..n - 2] && init[0] == values[0] && tail[n - 2] == last;
      RowPayloadLast(tail);
      ConcatAssoc(RowValueBytes(values[0]), RowPayload(init[1..]), RowValueBytes(last));
    }
  }

  /** A client reads back every field, NULLs included, in order. */
  lemma {:induction false} RowRoundTrip(values: seq<RowValue>)
    requires forall i :: 0 <= i < |values| ==> ValueFits(values[i])
    ensures DecodeRow(RowPayload(values)) == Some(values)
    decreases |values|
  {
    if |values| > 0 {
      var p := RowPayload(values);
      var rest := RowPayload(values[1..]);
      RowPayloadFirst(values);
      RowRoundTrip(values[1..]);
      if values[0].None? {
        assert p[0] == NULL_MARKER && p[1..] == rest;
      } else {
        var s := values[0].value;
        LenencStrRoundTrip(s, rest);
        assert p[0] == LenencInt(|s|)[0];
      }
      assert [values[0]] + values[1..] == values;
    }
  }

  /** encode_row_message: the column metadata argument does not change the
      bytes of a text row, so it is not a parameter here. */
  function EncodeRow(seqNo: byte, values: seq<RowValue>): (r: Bytes)
    requires forall i :: 0 <= i < |values| ==> ValueFits(values[i])
    requires |RowPayload(values)| <= MAX_PAYLOAD
    ensures ParsePacket(r).Some? && ParsePacket(r).value.seqNo == seqNo
    ensures DecodeRow(ParsePacket(r).value.payload) == Some(values)
  {
    RowRoundTrip(values);
    Frame(seqNo, RowPayload(values))
  }

  // ---------------------------------------------------------------------
  // Greeting
  // ---------------------------------------------------------------------

  /** auth-plugin-data-part-1: the first 8 nonce bytes, zero-filled when the
      nonce is shorter. */
  function NoncePart1(nonce: Bytes): Bytes
  {
    if |nonce| >= NONCE_PART1_LENGTH then nonce[..NONCE_PART1_LENGTH]
    else nonce + Zeros(NONCE_PART1_LENGTH - |nonce|)
  }

  /** auth-plugin-data-part-2: the rest of the nonce, zero-filled to 12
      bytes, and a 0x00 terminator. */
  function NoncePart2(nonce: Bytes): Bytes
  {
    var rest := if |nonce| >= NONCE_PART1_LENGTH then nonce[NONCE_PART1_LENGTH..] else [];
    var padded := if |rest| >= NONCE_PART2_MIN_LENGTH - 1 then rest
                  else rest + Zeros(NONCE_PART2_MIN_LENGTH - 1 - |rest|);
    padded + [0]
  }

  /** The nonce as the two parts carry it: verbatim, zero-filled to 20
      bytes when it is shorter. */
  function ZeroFilled(nonce: Bytes): Bytes
  {
    nonce + Zeros(if |nonce| < 20 then 20 - |nonce| else 0)
  }

  /** The two parts hold the nonce verbatim, zero-filled to 20 bytes; part 2
      is MAX(13, nonce length + 1 - 8) bytes, the last of them its
      terminator. */
  lemma NonceParts(nonce: Bytes)
    ensures |NoncePart1(nonce)| == NONCE_PART1_LENGTH
    ensures var part2 := NoncePart2(nonce);
              && |part2| == (if |nonce| + 1 - 8 > NONCE_PART2_MIN_LENGTH then |nonce| + 1 - 8
                             else NONCE_PART2_MIN_LENGTH)
              && part2[|part2| - 1] == 0
              && NoncePart1(nonce) + part2[..|part2| - 1] == ZeroFilled(nonce)
  {
    var part1, part2 := NoncePart1(nonce), NoncePart2(nonce);
    var pad := Zeros(if |nonce| < 20 then 20 - |nonce| else 0);
    if |nonce| >= NONCE_PART1_LENGTH {
      assert part1 + part2[..|part2| - 1] == nonce + pad;
    } else {
      assert part2[..|part2| - 1] == Zeros(12);
      assert part1 + part2[..|part2| - 1] == nonce + pad;
    }
  }

  /** The auth-plugin-data length byte when PLUGIN_AUTH is announced: the
      nonce length counting part 2's terminator, as HandshakeV10 reads it
      (21 for a 20-byte nonce), truncated to 8 bits; 0 otherwise. */
  function AuthDataLength(nonce: Bytes, capabilities: Flags): byte
  {
    if Has(capabilities, PLUGIN_AUTH_BIT) then (|nonce| + 1) % 0x100 else 0
  }

  /** The opening fields: protocol version, the NUL-terminated server
      version, the connection id, auth-plugin-data-part-1 and the filler. */
  function AppendHandshakeIdent(buffer: Bytes, mysqlVersion: Bytes, connectionId: uint32,
                                authPluginData: Bytes): Bytes
  {
    var b := AppendByte(buffer, PROTOCOL_VERSION);
    var b := AppendStr(b, mysqlVersion);
    var b := AppendByte(b, 0);
    var b := AppendInt(b, connectionId, 4);
    var b := AppendStr(b, NoncePart1(authPluginData));
    AppendByte(b, 0)
  }

  /** The fixed-width fields that follow: the lower capability half,
      character set, status, the upper capability half, the
      auth-plugin-data length byte and the reserved zeros. */
  function AppendHandshakeFlags(buffer: Bytes, capabilities: Flags, characterSet: byte,
                                statusFlags: uint16, authDataLength: nat): Bytes
  {
    var b := AppendInt(buffer, Low16(capabilities), 2);
    var b := AppendInt(b, characterSet, 1);
    var b := AppendInt(b, statusFlags, 2);
    var b := AppendInt(b, High16(capabilities), 2);
    var b := AppendInt(b, authDataLength, 1);
    AppendStr(b, Zeros(RESERVED_LENGTH))
  }

  function GreetingPayload(mysqlVersion: Bytes, connectionId: uint32, authPluginData: Bytes,
                           capabilities: Flags, authPluginName: Bytes,
                           characterSet: byte, statusFlags: uint16): Bytes
  {
    var b := AppendHandshakeIdent([], mysqlVersion, connectionId, authPluginData);
    var b := AppendHandshakeFlags(b, capabilities, characterSet, statusFlags,
                                  AuthDataLength(authPluginData, capabilities));
    var b := AppendStr(b, NoncePart2(authPluginData));
    if Has(capabilities, PLUGIN_AUTH_BIT) then AppendByte(AppendStr(b, authPluginName), 0) else b
  }

  /** The plugin name and its terminator, present only with PLUGIN_AUTH. */
  function GreetingTail(capabilities: Flags, authPluginName: Bytes): Bytes
  {
    if Has(capabilities, PLUGIN_AUTH_BIT) then authPluginName + [0] else []
  }

  /** The opening fields in the order a client meets them. */
  lemma HandshakeIdentLayout(mysqlVersion: Bytes, connectionId: uint32, authPluginData: Bytes,
                             rest: Bytes)
    ensures AppendHandshakeIdent([], mysqlVersion, connectionId, authPluginData) + rest
         == [PROTOCOL_VERSION] + (mysqlVersion + ([0] + (LittleEndian(connectionId, 4)
            + (NoncePart1(authPluginData) + ([0] + rest)))))
  {
    var part1 := NoncePart1(authPluginData);
    var b1 := [PROTOCOL_VERSION] + mysqlVersion;
    var b2 := b1 + [0];
    var b3 := b2 + LittleEndian(connectionId, 4);
    var b4 := b3 + part1;
    var t4 := part1 + ([0] + rest);
    var t3 := LittleEndian(connectionId, 4) + t4;
    var t2 := [0] + t3;
    assert AppendHandshakeIdent([], mysqlVersion, connectionId, authPluginData) == b4 + [0];
    ConcatAssoc(b4, [0], rest);
    ConcatAssoc(b3, part1, [0] + rest);
    ConcatAssoc(b2, LittleEndian(connectionId, 4), t4);
    ConcatAssoc(b1, [0], t3);
    ConcatAssoc([PROTOCOL_VERSION], mysqlVersion, t2);
  }

  /** The fixed-width fields in the order a client meets them. */
  lemma HandshakeFlagsLayout(buffer: Bytes, capabilities: Flags, characterSet: byte,
                             statusFlags: uint16, authDataLength: nat, rest: Bytes)
    ensures AppendHandshakeFlags(buffer, capabilities, characterSet, statusFlags, authDataLength) + rest
         == buffer + (LittleEndian(Low16(capabilities), 2) + (LittleEndian(characterSet, 1)
            + (LittleEndian(statusFlags, 2) + (LittleEndian(High16(capabilities), 2)
            + (LittleEndian(authDataLength, 1) + (Zeros(RESERVED_LENGTH) + rest))))))
  {
    var b1 := buffer + LittleEndian(Low16(capabilities), 2);
    var b2 := b1 + LittleEndian(characterSet, 1);
    var b3 := b2 + LittleEndian(statusFlags, 2);
    var b4 := b3 + LittleEndian(High16(capabilities), 2);
    var b5 := b4 + LittleEndian(authDataLength, 1);
    var t5 := Zeros(RESERVED_LENGTH) + rest;
    var t4 := LittleEndian(authDataLength, 1) + t5;
    var t3 := LittleEndian(High16(capabilities), 2) + t4;
    var t2 := LittleEndian(statusFlags, 2) + t3;
    var t1 := LittleEndian(characterSet, 1) + t2;
    assert AppendHandshakeFlags(buffer, capabilities, characterSet, statusFlags, authDataLength)
        == b5 + Zeros(RESERVED_LENGTH);
    ConcatAssoc(b5, Zeros(RESERVED_LENGTH), rest);
    ConcatAssoc(b4, LittleEndian(authDataLength, 1), t5);
    ConcatAssoc(b3, LittleEndian(High16(capabilities), 2), t4);
    ConcatAssoc(b2, LittleEndian(statusFlags, 2), t3);
    ConcatAssoc(b1, LittleEndian(characterSet, 1), t2);
    ConcatAssoc(buffer, LittleEndian(Low16(capabilities), 2), t1);
  }

  /** Appending the fixed-width fields leaves the buffer in front of them. */
  lemma AppendHandshakeFlagsIs(buffer: Bytes, capabilities: Flags, characterSet: byte,
                               statusFlags: uint16, authDataLength: nat)
    ensures AppendHandshakeFlags(buffer, capabilities, characterSet, statusFlags, authDataLength)
         == buffer + AppendHandshakeFlags([], capabilities, characterSet, statusFlags, authDataLength)
  {
    HandshakeFlagsLayout(buffer, capabilities, characterSet, statusFlags, authDataLength, []);
    HandshakeFlagsLayout([], capabilities, characterSet, statusFlags, authDataLength, []);
  }

  /** The payload is the opening fields, the fixed-width fields,
      auth-plugin-data-part-2 and the optional plugin name. */
  lemma GreetingPayloadLayout(mysqlVersion: Bytes, connectionId: uint32, authPluginData: Bytes,
                              capabilities: Flags, authPluginName: Bytes,
                              characterSet: byte, statusFlags: uint16)
    ensures GreetingPayload(mysqlVersion, connectionId, authPluginData, capabilities,
                            authPluginName, characterSet, statusFlags)
         == AppendHandshakeIdent([], mysqlVersion, connectionId, authPluginData)
            + (AppendHandshakeFlags([], capabilities, characterSet, statusFlags,
                                    AuthDataLength(authPluginData, capabilities))
            + (NoncePart2(authPluginData) + GreetingTail(capabilities, authPluginName)))
  {
    var ident := AppendHandshakeIdent([], mysqlVersion, connectionId, authPluginData);
    var authLength := AuthDataLength(authPluginData, capabilities);
    var flags := AppendHandshakeFlags([], capabilities, characterSet, statusFlags, authLength);
    var part2 := NoncePart2(authPluginData);
    var tail := GreetingTail(capabilities, authPluginName);
    AppendHandshakeFlagsIs(ident, capabilities, characterSet, statusFlags, authLength);
    assert GreetingPayload(mysqlVersion, connectionId, authPluginData, capabilities,
                           authPluginName, characterSet, statusFlags)
        == ((ident + flags) + part2) + tail by {
      if Has(capabilities, PLUGIN_AUTH_BIT) {
        ConcatAssoc((ident + flags) + part2, authPluginName, [0]);
      }
    }
    ConcatAssoc(ident + flags, part2, tail);
    ConcatAssoc(ident, flags, part2 + tail);
  }

  /** A client reads the opening fields back. */
  lemma HandshakeIdentRoundTrip(mysqlVersion: Bytes, connectionId: uint32, authPluginData: Bytes,
                                rest: Bytes)
    requires 0 !in mysqlVersion
    ensures DecodeHandshakeHead(AppendHandshakeIdent([], mysqlVersion, connectionId, authPluginData) + rest)
         == Some((HandshakeHead(mysqlVersion, connectionId, NoncePart1(authPluginData)), rest))
  {
    HandshakeIdentLayout(mysqlVersion, connectionId, authPluginData, rest);
    NonceParts(authPluginData);
    IdentFieldsRead(mysqlVersion, connectionId, NoncePart1(authPluginData), rest);
  }

  lemma IdentFieldsRead(mysqlVersion: Bytes, connectionId: uint32, part1: Bytes, rest: Bytes)
    requires 0 !in mysqlVersion && |part1| == NONCE_PART1_LENGTH
    ensures DecodeHandshakeHead([PROTOCOL_VERSION] + (mysqlVersion + ([0] + (LittleEndian(connectionId, 4)
              + (part1 + ([0] + rest))))))
         == Some((HandshakeHead(mysqlVersion, connectionId, part1), rest))
  {
    var t4 := part1 + ([0] + rest);
    var t3 := LittleEndian(connectionId, 4) + t4;
    var t1 := mysqlVersion + ([0] + t3);
    var p := [PROTOCOL_VERSION] + t1;
    assert TakeInt(p, 1) == Some((PROTOCOL_VERSION as nat, t1)) by {
      assert p[..1] == [PROTOCOL_VERSION] && p[1..] == t1;
    }
    assert TakeCString(t1) == Some((mysqlVersion, t3)) by {
      ConcatAssoc(mysqlVersion, [0], t3);
      TakeCStringConcat(mysqlVersion, t3);
    }
    assert TakeInt(t3, 4) == Some((connectionId as nat, t4)) by {
      assert Pow256(4) == 0x1_0000_0000;
      TakeIntConcat(connectionId, 4, t4);
    }
    TakeConcat(part1, [0] + rest);
    assert TakeInt([0] + rest, 1) == Some((0, rest)) by {
      assert LittleEndian(0, 1) == [0];
      TakeIntConcat(0, 1, rest);
    }
  }

  /** A client reads the fixed-width fields back and rejoins the two
      capability halves. */
  lemma HandshakeFlagsRoundTrip(capabilities: Flags, characterSet: byte, statusFlags: uint16,
                                authDataLength: nat, rest: Bytes)
    requires authDataLength < 0x100
    ensures DecodeHandshakeFlags(AppendHandshakeFlags([], capabilities, characterSet, statusFlags,
                                                      authDataLength) + rest)
         == Some((HandshakeFlags(capabilities, characterSet, statusFlags, authDataLength), rest))
  {
    HandshakeFlagsLayout([], capabilities, characterSet, statusFlags, authDataLength, rest);
    assert [] + (LittleEndian(Low16(capabilities), 2) + (LittleEndian(characterSet, 1)
              + (LittleEndian(statusFlags, 2) + (LittleEndian(High16(capabilities), 2)
              + (LittleEndian(authDataLength, 1) + (Zeros(RESERVED_LENGTH) + rest))))))
        == LittleEndian(Low16(capabilities), 2) + (LittleEndian(characterSet, 1)
              + (LittleEndian(statusFlags, 2) + (LittleEndian(High16(capabilities), 2)
              + (LittleEndian(authDataLength, 1) + (Zeros(RESERVED_LENGTH) + rest)))));
    FlagsFieldsRead(capabilities, characterSet, statusFlags, authDataLength, rest);
  }

  lemma FlagsFieldsRead(capabilities: Flags, characterSet: byte, statusFlags: uint16,
                        authDataLength: nat, rest: Bytes)
    requires authDataLength < 0x100
    ensures DecodeHandshakeFlags(LittleEndian(Low16(capabilities), 2) + (LittleEndian(characterSet, 1)
              + (LittleEndian(statusFlags, 2) + (LittleEndian(High16(capabilities), 2)
              + (LittleEndian(authDataLength, 1) + (Zeros(RESERVED_LENGTH) + rest))))))
         == Some((HandshakeFlags(capabilities, characterSet, statusFlags, authDataLength), rest))
  {
    var t5 := Zeros(RESERVED_LENGTH) + rest;
    var t4 := LittleEndian(authDataLength, 1) + t5;
    var t3 := LittleEndian(High16(capabilities), 2) + t4;
    var t2 := LittleEndian(statusFlags, 2) + t3;
    var t1 := LittleEndian(characterSet, 1) + t2;
    var p := LittleEndian(Low16(capabilities), 2) + t1;
    assert Pow256(1) == 0x100 && Pow256(2) == 0x1_0000;
    SplitRoundTrip(capabilities);
    assert TakeInt(p, 2) == Some((Low16(capabilities) as nat, t1)) by {
      TakeIntConcat(Low16(capabilities), 2, t1);
    }
    assert TakeInt(t1, 1) == Some((characterSet as nat, t2)) by {
      TakeIntConcat(characterSet, 1, t2);
    }
    assert TakeInt(t2, 2) == Some((statusFlags as nat, t3)) by {
      TakeIntConcat(statusFlags, 2, t3);
    }
    assert TakeInt(t3, 2) == Some((High16(capabilities) as nat, t4)) by {
      TakeIntConcat(High16(capabilities), 2, t4);
    }
    assert TakeInt(t4, 1) == Some((authDataLength, t5)) by {
      TakeIntConcat(authDataLength, 1, t5);
    }
    assert Take(t5, RESERVED_LENGTH) == Some((Zeros(RESERVED_LENGTH), rest)) by {
      TakeConcat(Zeros(RESERVED_LENGTH), rest);
    }
  }

  /** The longest nonce whose length, terminator included, the length byte holds. */
  const MAX_ANNOUNCED_NONCE: nat := 0xFE

  /** The greeting can be read back: neither the version nor an announced
      plugin name holds the 0x00 that terminates it, and the length of part 2
      reaches the client. With PLUGIN_AUTH the length byte announces it, so
      the nonce may take up to 254 bytes; without, the length byte is 0 and
      the client reads the 20 bytes of the two minimal parts. */
  predicate GreetingReadable(mysqlVersion: Bytes, authPluginData: Bytes, capabilities: Flags,
                             authPluginName: Bytes)
  {
    && 0 !in mysqlVersion
    && (Has(capabilities, PLUGIN_AUTH_BIT) ==> |authPluginData| <= MAX_ANNOUNCED_NONCE && 0 !in authPluginName)
    && (!Has(capabilities, PLUGIN_AUTH_BIT) ==> |authPluginData| <= 20)
  }

  /** What a client reads from a greeting built from these arguments: the
      nonce comes back zero-filled to 20 bytes, and the plugin name only
      when PLUGIN_AUTH is announced. */
  function SentGreeting(mysqlVersion: Bytes, connectionId: uint32, authPluginData: Bytes,
                        capabilities: Flags, authPluginName: Bytes,
                        characterSet: byte, statusFlags: uint16): Greeting
  {
    Greeting(mysqlVersion, connectionId, ZeroFilled(authPluginData),
             capabilities, characterSet, statusFlags,
             if Has(capabilities, PLUGIN_AUTH_BIT) then Some(authPluginName) else None)
  }

  /** A client reads every field back: the version and the plugin name up
      to their terminators, the capabilities from their two halves, and the
      nonce, zero-filled to 20 bytes, from the two parts. The plugin name is
      there exactly when PLUGIN_AUTH is announced. */
  lemma GreetingRoundTrip(mysqlVersion: Bytes, connectionId: uint32, authPluginData: Bytes,
                          capabilities: Flags, authPluginName: Bytes,
                          characterSet: byte, statusFlags: uint16)
    requires GreetingReadable(mysqlVersion, authPluginData, capabilities, authPluginName)
    ensures DecodeGreeting(GreetingPayload(mysqlVersion, connectionId, authPluginData, capabilities,
                                           authPluginName, characterSet, statusFlags))
         == Some(SentGreeting(mysqlVersion, connectionId, authPluginData, capabilities,
                              authPluginName, characterSet, statusFlags))
  {
    GreetingPayloadLayout(mysqlVersion, connectionId, authPluginData, capabilities,
                          authPluginName, characterSet, statusFlags);
    HandshakeIdentRoundTrip(mysqlVersion, connectionId, authPluginData,
      AppendHandshakeFlags([], capabilities, characterSet, statusFlags,
                           AuthDataLength(authPluginData, capabilities))
      + (NoncePart2(authPluginData) + GreetingTail(capabilities, authPluginName)));
    HandshakeFlagsRoundTrip(capabilities, characterSet, statusFlags,
      AuthDataLength(authPluginData, capabilities),
      NoncePart2(authPluginData) + GreetingTail(capabilities, authPluginName));
    NoncePart2RoundTrip(authPluginData, capabilities, GreetingTail(capabilities, authPluginName));
    PluginNameRoundTrip(capabilities, authPluginName);
  }

  /** Part 2 is read back whole, up to its terminator, whenever its length
      reaches the client: announced with PLUGIN_AUTH for nonces of up to 254
      bytes, or the minimal 13 bytes for nonces of up to 20. With part 1 it
      gives the nonce zero-filled to 20 bytes. */
  lemma NoncePart2RoundTrip(authPluginData: Bytes, capabilities: Flags, rest: Bytes)
    requires Has(capabilities, PLUGIN_AUTH_BIT) ==> |authPluginData| <= MAX_ANNOUNCED_NONCE
    requires !Has(capabilities, PLUGIN_AUTH_BIT) ==> |authPluginData| <= 20
    ensures var part2 := NoncePart2(authPluginData);
              DecodeNoncePart2(AuthDataLength(authPluginData, capabilities), part2 + rest)
              == Some((part2[..|part2| - 1], rest))
    ensures var part2 := NoncePart2(authPluginData);
              NoncePart1(authPluginData) + part2[..|part2| - 1] == ZeroFilled(authPluginData)
  {
    NonceParts(authPluginData);
    TakeConcat(NoncePart2(authPluginData), rest);
  }

  /** Without PLUGIN_AUTH the length byte is 0, so a client takes the minimal
      13 bytes as part 2: of a nonce longer than 20 bytes it reads the first
      20 and leaves the rest of part 2 in front of what follows. */
  lemma UnannouncedNonceCut(authPluginData: Bytes, capabilities: Flags, rest: Bytes)
    requires !Has(capabilities, PLUGIN_AUTH_BIT) && |authPluginData| > 20
    ensures var part2 := NoncePart2(authPluginData);
              && DecodeNoncePart2(AuthDataLength(authPluginData, capabilities), part2 + rest)
                 == Some((authPluginData[8..20], part2[NONCE_PART2_MIN_LENGTH..] + rest))
              && |part2[NONCE_PART2_MIN_LENGTH..]| == |authPluginData| - 20
  {
    var part2 := NoncePart2(authPluginData);
    var head, tail := part2[..NONCE_PART2_MIN_LENGTH], part2[NONCE_PART2_MIN_LENGTH..];
    assert part2 == authPluginData[8..] + [0];
    assert head[..NONCE_PART2_MIN_LENGTH - 1] == authPluginData[8..20];
    assert part2 + rest == head + (tail + rest);
    TakeConcat(head, tail + rest);
    assert AuthDataLength(authPluginData, capabilities) == 0;
  }

  /** The plugin name is read back exactly when PLUGIN_AUTH is announced. */
  lemma PluginNameRoundTrip(capabilities: Flags, authPluginName: Bytes)
    requires Has(capabilities, PLUGIN_AUTH_BIT) ==> 0 !in authPluginName
    ensures DecodePluginName(capabilities, GreetingTail(capabilities, authPluginName))
         == Some(if Has(capabilities, PLUGIN_AUTH_BIT) then Some(authPluginName) else None)
  {
    if Has(capabilities, PLUGIN_AUTH_BIT) {
      assert GreetingTail(capabilities, authPluginName) == authPluginName + [0] + [];
      TakeCStringConcat(authPluginName, []);
    }
  }

  /** The auth-plugin-data length byte sits right after the reserved-field
      prefix: the nonce length plus its terminator, truncated to 8 bits, with
      PLUGIN_AUTH, 0 without; the payload is the fixed 34 bytes, the
      version, the nonce bytes past part 1 (at least 12), and the optional
      plugin name. */
  lemma GreetingPayloadFields(mysqlVersion: Bytes, connectionId: uint32, authPluginData: Bytes,
                              capabilities: Flags, authPluginName: Bytes,
                              characterSet: byte, statusFlags: uint16)
    ensures var p := GreetingPayload(mysqlVersion, connectionId, authPluginData, capabilities,
                                     authPluginName, characterSet, statusFlags);
              && |p| == 34 + |mysqlVersion| + (if |authPluginData| > 20 then |authPluginData| - 8 else 12)
                        + (if Has(capabilities, PLUGIN_AUTH_BIT) then |authPluginName| + 1 else 0)
              && p[22 + |mysqlVersion|]
                 == (if Has(capabilities, PLUGIN_AUTH_BIT) then (|authPluginData| + 1) % 256 else 0)
  {
    var authLength := AuthDataLength(authPluginData, capabilities);
    var ident := AppendHandshakeIdent([], mysqlVersion, connectionId, authPluginData);
    var flags := AppendHandshakeFlags([], capabilities, characterSet, statusFlags, authLength);
    var part2, tail := NoncePart2(authPluginData), GreetingTail(capabilities, authPluginName);
    assert |ident| == 15 + |mysqlVersion|
        && |part2| == (if |authPluginData| > 20 then |authPluginData| - 7 else 13) by {
      NonceParts(authPluginData);
    }
    assert |tail| == (if Has(capabilities, PLUGIN_AUTH_BIT) then |authPluginName| + 1 else 0);
    assert authLength == (if Has(capabilities, PLUGIN_AUTH_BIT) then (|authPluginData| + 1) % 256 else 0);
    assert |flags| == 18 && flags[7] == authLength by {
      HandshakeFlagsLayout([], capabilities, characterSet, statusFlags, authLength, []);
      assert flags[7] == LittleEndian(authLength, 1)[0];
    }
    var p := GreetingPayload(mysqlVersion, connectionId, authPluginData, capabilities,
                             authPluginName, characterSet, statusFlags);
    assert p == ident + (flags + (part2 + tail)) by {
      GreetingPayloadLayout(mysqlVersion, connectionId, authPluginData, capabilities,
                            authPluginName, characterSet, statusFlags);
    }
    assert |p| == |ident| + |flags| + |part2| + |tail|;
    assert p[22 + |mysqlVersion|] == flags[7];
  }

  /** Part 2 adds at most the 12 filler bytes and its terminator to the
      nonce bytes past part 1. */
  lemma NoncePart2Size(nonce: Bytes)
    ensures |NoncePart2(nonce)| <= NONCE_PART2_MIN_LENGTH + |nonce|
  {
  }

  /** The greeting's declared defaults. */
  const DEFAULT_VERSION: Bytes := Latin1("8.0.5")
  const DEFAULT_NONCE: Bytes := Latin1("123456789|123456789|")
  const DEFAULT_AUTH_PLUGIN: Bytes := Latin1("mysql_native_password")

  /** encode_greetings_message, with the declared defaults: server version
      "8.0.5", connection id 1, the nonce "123456789|123456789|", the
      capabilities PROTOCOL_41 | SECURE_CONNECTION, the plugin
      "mysql_native_password", character set 0 and status 0. */
  function EncodeGreeting(seqNo: byte,
                          mysqlVersion: Bytes := DEFAULT_VERSION,
                          connectionId: uint32 := 1,
                          authPluginData: Bytes := DEFAULT_NONCE,
                          capabilities: Flags := DefaultCapabilities(),
                          authPluginName: Bytes := DEFAULT_AUTH_PLUGIN,
                          characterSet: byte := 0,
                          statusFlags: uint16 := 0): (r: Bytes)
    requires |mysqlVersion| + |authPluginData| + |authPluginName| <= MAX_PAYLOAD - 47
    ensures ParsePacket(r) == Some(Packet(seqNo, GreetingPayload(mysqlVersion, connectionId,
              authPluginData, capabilities, authPluginName, characterSet, statusFlags)))
    ensures GreetingReadable(mysqlVersion, authPluginData, capabilities, authPluginName) ==>
              DecodeGreeting(ParsePacket(r).value.payload)
              == Some(SentGreeting(mysqlVersion, connectionId, authPluginData, capabilities,
                                   authPluginName, characterSet, statusFlags))
  {
    var p := GreetingPayload(mysqlVersion, connectionId, authPluginData, capabilities,
                             authPluginName, characterSet, statusFlags);
    assert |p| <= MAX_PAYLOAD by {
      GreetingPayloadFields(mysqlVersion, connectionId, authPluginData, capabilities,
                            authPluginName, characterSet, statusFlags);
      NoncePart2Size(authPluginData);
    }
    assert GreetingReadable(mysqlVersion, authPluginData, capabilities, authPluginName) ==>
             DecodeGreeting(p) == Some(SentGreeting(mysqlVersion, connectionId, authPluginData,
                                        capabilities, authPluginName, characterSet, statusFlags)) by {
      if GreetingReadable(mysqlVersion, authPluginData, capabilities, authPluginName) {
        GreetingRoundTrip(mysqlVersion, connectionId, authPluginData, capabilities,
                          authPluginName, characterSet, statusFlags);
      }
    }
    Frame(seqNo, p)
  }
}
