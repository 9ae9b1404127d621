/** Constants and records of the MySQL client/server protocol shared by the
    encoder and by the client-side decoders it is checked against. */
module Protocol {
  import opened Wrappers
  import opened Primitives

  /** The error code the mock server reports for a statement it cannot parse. */
  const MYSQL_PARSE_ERROR: uint16 := 1064

  /** First payload byte of each message kind. */
  const OK_MARKER: byte := 0x00
  const ERR_MARKER: byte := 0xFF
  const EOF_MARKER: byte := 0xFE
  const AUTH_SWITCH_MARKER: byte := 0xFE

  /** A NULL column value in a text result row. */
  const NULL_MARKER: byte := 0xFB

  /** '#', written before the SQL state of an ERR packet. */
  const SQL_STATE_MARKER: byte := 0x23
  const SQL_STATE_LENGTH: nat := 5

  /** Protocol::HandshakeV10. */
  const PROTOCOL_VERSION: byte := 10
  const NONCE_PART1_LENGTH: nat := 8
  /** Auth-plugin-data-part-2 is at least 13 bytes, its terminator included. */
  const NONCE_PART2_MIN_LENGTH: nat := 13
  const RESERVED_LENGTH: nat := 10

  /** The caching_sha2_password fast-authentication success byte. */
  const AUTH_FAST_OK: byte := 0x03

  /** Protocol::ColumnDefinition41: the catalog is always "def", and a
      length-encoded 0x0C announces the 12 bytes of fixed-width fields. */
  const CATALOG: Bytes := [0x64, 0x65, 0x66]
  const FIXED_FIELDS_LENGTH: uint64 := 0x0C

  /** The fields of an OK packet, as a client reads them. */
  datatype OkFields = OkFields(affectedRows: nat, lastInsertId: nat, status: nat, warnings: nat)

  /** The fields of an ERR packet, as a client reads them. */
  datatype ErrorFields = ErrorFields(code: nat, sqlState: Bytes, message: Bytes)

  /** The fields of an EOF packet (protocol-41 layout), as a client reads them. */
  datatype EofFields = EofFields(warnings: nat, status: nat)

  /** The fields of an auth-switch request, as a client reads them. */
  datatype AuthSwitchFields = AuthSwitchFields(pluginName: Bytes, pluginData: Bytes)

  /** The fields of a server greeting, as a client reads them. */
  datatype Greeting = Greeting(
    version: Bytes,
    connectionId: nat,
    authPluginData: Bytes,
    capabilities: nat,
    characterSet: nat,
    statusFlags: nat,
    authPluginName: Option<Bytes>)

  /** The fields of a greeting before the capabilities. */
  datatype HandshakeHead = HandshakeHead(version: Bytes, connectionId: nat, part1: Bytes)

  /** The fixed-width fields of a greeting from the capabilities on. */
  datatype HandshakeFlags = HandshakeFlags(capabilities: nat, characterSet: nat, statusFlags: nat,
                                           authDataLength: nat)

  /** The metadata of one result-set column. */
  datatype ColumnInfo = ColumnInfo(
    schema: Bytes,
    table: Bytes,
    origTable: Bytes,
    name: Bytes,
    origName: Bytes,
    characterSet: uint16,
    length: uint32,
    columnType: byte,
    flags: uint16,
    decimals: byte)

  /** One field of a text result row: None is SQL NULL. */
  type RowValue = Option<Bytes>

  /** Every string of the column can be length-encoded. */
  predicate ColumnFits(c: ColumnInfo) {
    && |c.schema| < UINT64_LIMIT && |c.table| < UINT64_LIMIT && |c.origTable| < UINT64_LIMIT
    && |c.name| < UINT64_LIMIT && |c.origName| < UINT64_LIMIT
  }

  /** A non-NULL value can be length-encoded. */
  predicate ValueFits(v: RowValue) {
    v.Some? ==> |v.value| < UINT64_LIMIT
  }

  /** n zero bytes. */
  function Zeros(n: nat): (r: Bytes)
    ensures |r| == n && forall i :: 0 <= i < n ==> r[i] == 0
  {
    seq(n, _ => 0)
  }

  /** The bytes of a string whose characters are all below 256. */
  function Latin1(s: string): (r: Bytes)
    requires forall i :: 0 <= i < |s| ==> s[i] as int < 256
    ensures |r| == |s| && forall i :: 0 <= i < |s| ==> r[i] == s[i] as int
  {
    seq(|s|, i requires 0 <= i < |s| => s[i] as int)
  }
}
