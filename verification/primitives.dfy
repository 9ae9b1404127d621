/** The primitive appends of the encoder: fixed-width little-endian integers,
    raw strings and buffers, and the protocol's length-encoded integers and
    strings. Every append only pushes bytes to the back of the caller's
    buffer; each encoding is paired with a decoder and a round-trip lemma. */
module Primitives {
  import opened Wrappers

  type byte = b: int | 0 <= b < 256
  type Bytes = seq<byte>
  type uint16 = x: int | 0 <= x < 0x1_0000
  type uint32 = x: int | 0 <= x < 0x1_0000_0000
  type uint64 = x: int | 0 <= x < 0x1_0000_0000_0000_0000

  /** One past the largest value a uint64 holds. */
  const UINT64_LIMIT: int := 0x1_0000_0000_0000_0000

  /** Markers of the length-encoded integer (section Protocol::LengthEncodedInteger). */
  const LENENC_2_BYTES: byte := 0xFC
  const LENENC_3_BYTES: byte := 0xFD
  const LENENC_8_BYTES: byte := 0xFE

  // ---------------------------------------------------------------------
  // Arithmetic helpers
  // ---------------------------------------------------------------------

  /** 256^n: one past the largest value that n bytes hold. */
  function Pow256(n: nat): (r: nat)
    ensures r >= 1
  {
    if n == 0 then 1 else 256 * Pow256(n - 1)
  }

  lemma MulAtLeast(d: int, t: int)
    requires d > 0 && t >= 1
    ensures d * t >= d
  {
    if t > 1 {
      MulAtLeast(d, t - 1);
      assert d * t == d * (t - 1) + d;
    }
  }

  lemma MulMonotonic(b: nat, x: nat, y: nat)
    requires x <= y
    ensures b * x <= b * y
  {
    assert b * y == b * x + b * (y - x);
  }

  /** Quotient and remainder are determined by v == d * q + m with 0 <= m < d. */
  lemma DivModUnique(v: int, d: int, q: int, m: int)
    requires d > 0 && 0 <= m < d && v == d * q + m
    ensures v / d == q && v % d == m
  {
    var q0, m0 := v / d, v % d;
    assert v == d * q0 + m0;
    if q > q0 {
      assert d * q == d * q0 + d * (q - q0);
      MulAtLeast(d, q - q0);
      assert false;
    } else if q < q0 {
      assert d * q0 == d * q + d * (q0 - q);
      MulAtLeast(d, q0 - q);
      assert false;
    }
  }

  lemma DivDiv(a: nat, b: nat, c: nat)
    requires b > 0 && c > 0
    ensures a / b / c == a / (b * c)
  {
    var q, r := a / b, a % b;
    var q2, r2 := q / c, q % c;
    assert q == c * q2 + r2;
    assert a == b * q + r;
    assert b * q == b * (c * q2) + b * r2;
    assert b * (c * q2) == (b * c) * q2;
    MulMonotonic(b, r2, c - 1);
    assert b * (c - 1) == b * c - b;
    DivModUnique(a, b * c, q2, b * r2 + r);
  }

  /** Splitting the remainder modulo 256 * p into its low byte and the rest. */
  lemma ModSplit(v: nat, p: nat)
    requires p > 0
    ensures v % (256 * p) == v % 256 + 256 * ((v / 256) % p)
  {
    var q, r := v / 256, v % 256;
    var q2, r2 := q / p, q % p;
    assert q == p * q2 + r2;
    assert v == 256 * q + r;
    assert 256 * q == 256 * (p * q2) + 256 * r2;
    assert 256 * (p * q2) == (256 * p) * q2;
    MulMonotonic(256, r2, p - 1);
    DivModUnique(v, 256 * p, q2, 256 * r2 + r);
  }

  lemma ConcatAssoc(a: Bytes, b: Bytes, c: Bytes)
    ensures (a + b) + c == a + (b + c)
  {
  }

  // ---------------------------------------------------------------------
  // Fixed-width little-endian integers (append_int)
  // ---------------------------------------------------------------------

  /** The n bytes append_int pushes for value v: low byte first, each next
      byte taken after shifting right by 8. Bits beyond n bytes are dropped. */
  function LittleEndian(v: nat, n: nat): (r: Bytes)
    ensures |r| == n
  {
    if n == 0 then [] else [v % 256] + LittleEndian(v / 256, n - 1)
  }

  /** The value a little-endian byte string stands for. */
  function DecodeLittleEndian(bs: Bytes): (v: nat)
    ensures v < Pow256(|bs|)
  {
    if |bs| == 0 then 0 else bs[0] + 256 * DecodeLittleEndian(bs[1..])
  }

  /** Byte i of the encoding is (v >> 8*i) truncated to 8 bits. */
  lemma {:induction false} LittleEndianByte(v: nat, n: nat, i: nat)
    requires i < n
    ensures LittleEndian(v, n)[i] == (v / Pow256(i)) % 256
  {
    if i > 0 {
      LittleEndianByte(v / 256, n - 1, i - 1);
      DivDiv(v, 256, Pow256(i - 1));
    }
  }

  /** Decoding what append_int wrote gives the value truncated to the width. */
  lemma {:induction false} LittleEndianRoundTrip(v: nat, n: nat)
    ensures DecodeLittleEndian(LittleEndian(v, n)) == v % Pow256(n)
  {
    if n > 0 {
      var bs := LittleEndian(v, n);
      assert bs[1..] == LittleEndian(v / 256, n - 1);
      LittleEndianRoundTrip(v / 256, n - 1);
      ModSplit(v, Pow256(n - 1));
    }
  }

  /** Every byte string is the encoding of the value it decodes to. */
  lemma {:induction false} DecodeLittleEndianRoundTrip(bs: Bytes)
    ensures LittleEndian(DecodeLittleEndian(bs), |bs|) == bs
  {
    if |bs| > 0 {
      var v := DecodeLittleEndian(bs);
      var rest := DecodeLittleEndian(bs[1..]);
      DivModUnique(v, 256, rest, bs[0]);
      DecodeLittleEndianRoundTrip(bs[1..]);
    }
  }

  /** A value that fits in n bytes survives the round trip unchanged. */
  lemma LittleEndianExact(v: nat, n: nat)
    requires v < Pow256(n)
    ensures DecodeLittleEndian(LittleEndian(v, n)) == v
  {
    LittleEndianRoundTrip(v, n);
  }

  /** append_int(buffer, value, len). */
  function AppendInt(buffer: Bytes, value: nat, len: nat): (r: Bytes)
    ensures |r| == |buffer| + len && r[..|buffer|] == buffer
    ensures DecodeLittleEndian(r[|buffer|..]) == value % Pow256(len)
  {
    LittleEndianRoundTrip(value, len);
    assert (buffer + LittleEndian(value, len))[|buffer|..] == LittleEndian(value, len);
    buffer + LittleEndian(value, len)
  }

  /** The loop of append_int: push the low byte, shift right by 8, len times. */
  method AppendIntLoop(buffer: Bytes, value: nat, len: nat) returns (out: Bytes)
    ensures out == AppendInt(buffer, value, len)
  {
    out := buffer;
    var v := value;
    var remaining := len;
    while remaining > 0
      invariant out + LittleEndian(v, remaining) == buffer + LittleEndian(value, len)
      decreases remaining
    {
      assert LittleEndian(v, remaining) == [v % 256] + LittleEndian(v / 256, remaining - 1);
      out := out + [v % 256];
      v := v / 256;
      remaining := remaining - 1;
    }
  }

  // ---------------------------------------------------------------------
  // Raw bytes
  // ---------------------------------------------------------------------

  /** append_byte. */
  function AppendByte(buffer: Bytes, value: byte): (r: Bytes)
    ensures |r| == |buffer| + 1 && r[..|buffer|] == buffer && r[|buffer|] == value
  {
    buffer + [value]
  }

  /** append_str: the string's bytes, no length prefix, no terminator. */
  function AppendStr(buffer: Bytes, value: Bytes): (r: Bytes)
    ensures |r| == |buffer| + |value| && r[..|buffer|] == buffer && r[|buffer|..] == value
  {
    buffer + value
  }

  /** append_buffer: another buffer's bytes, verbatim. */
  function AppendBuffer(buffer: Bytes, value: Bytes): (r: Bytes)
    ensures |r| == |buffer| + |value| && r[..|buffer|] == buffer && r[|buffer|..] == value
  {
    AppendStr(buffer, value)
  }

  // ---------------------------------------------------------------------
  // Length-encoded integers and strings
  // ---------------------------------------------------------------------

  /** Protocol::LengthEncodedInteger. The first byte is never 0xFB (the
      NULL marker of a text row) nor 0xFF (the ERR marker). */
  function LenencInt(v: uint64): (r: Bytes)
    ensures 1 <= |r| <= 9
    ensures r[0] != 0xFB && r[0] != 0xFF
  {
    if v < 251 then [v]
    else if v < 0x1_0000 then [LENENC_2_BYTES] + LittleEndian(v, 2)
    else if v < 0x100_0000 then [LENENC_3_BYTES] + LittleEndian(v, 3)
    else [LENENC_8_BYTES] + LittleEndian(v, 8)
  }

  /** Reads one length-encoded integer off the front; returns it and what follows. */
  function DecodeLenencInt(bs: Bytes): (r: Option<(nat, Bytes)>)
    ensures r.Some? ==> |r.value.1| < |bs| && r.value.1 == bs[|bs| - |r.value.1|..]
  {
    if |bs| == 0 then None
    else if bs[0] < 251 then Some((bs[0], bs[1..]))
    else if bs[0] == LENENC_2_BYTES && |bs| >= 3 then Some((DecodeLittleEndian(bs[1..3]), bs[3..]))
    else if bs[0] == LENENC_3_BYTES && |bs| >= 4 then Some((DecodeLittleEndian(bs[1..4]), bs[4..]))
    else if bs[0] == LENENC_8_BYTES && |bs| >= 9 then Some((DecodeLittleEndian(bs[1..9]), bs[9..]))
    else None
  }

  /** The width of the encoding is 1, 3, 4 or 9 bytes exactly at the
      thresholds 251, 2^16 and 2^24. */
  lemma LenencIntWidth(v: uint64)
    ensures |LenencInt(v)| == 1 <==> v < 251
    ensures |LenencInt(v)| == 3 <==> 251 <= v < 0x1_0000
    ensures |LenencInt(v)| == 4 <==> 0x1_0000 <= v < 0x100_0000
    ensures |LenencInt(v)| == 9 <==> 0x100_0000 <= v
  {
  }

  /** Decoding a length-encoded integer gives it back and leaves what follows. */
  lemma LenencIntRoundTrip(v: uint64, rest: Bytes)
    ensures DecodeLenencInt(LenencInt(v) + rest) == Some((v, rest))
  {
    var e := LenencInt(v);
    var bs := e + rest;
    if v < 251 {
      assert bs[1..] == rest;
    } else if v < 0x1_0000 {
      assert bs[1..3] == LittleEndian(v, 2);
      assert bs[3..] == rest;
      LittleEndianExact(v, 2);
    } else if v < 0x100_0000 {
      assert bs[1..4] == LittleEndian(v, 3);
      assert bs[4..] == rest;
      LittleEndianExact(v, 3);
    } else {
      assert bs[1..9] == LittleEndian(v, 8);
      assert bs[9..] == rest;
      LittleEndianExact(v, 8);
    }
  }

  /** Distinct values have distinct encodings. */
  lemma LenencIntInjective(a: uint64, b: uint64)
    requires LenencInt(a) == LenencInt(b)
    ensures a == b
  {
    LenencIntRoundTrip(a, []);
    LenencIntRoundTrip(b, []);
  }

  /** The boundary values of the width table. */
  lemma LenencIntBoundaries()
    ensures LenencInt(0) == [0x00]
    ensures LenencInt(250) == [250]
    ensures LenencInt(251) == [0xFC, 251, 0]
    ensures LenencInt(0xFFFF) == [0xFC, 0xFF, 0xFF]
    ensures LenencInt(0x1_0000) == [0xFD, 0x00, 0x00, 0x01]
    ensures LenencInt(0xFF_FFFF) == [0xFD, 0xFF, 0xFF, 0xFF]
    ensures LenencInt(0x100_0000) == [0xFE, 0x00, 0x00, 0x00, 0x01, 0x00, 0x00, 0x00, 0x00]
  {
  }

  /** append_lenenc_int. */
  function AppendLenencInt(buffer: Bytes, val: uint64): (r: Bytes)
    ensures |r| > |buffer| && r[..|buffer|] == buffer
    ensures DecodeLenencInt(r[|buffer|..]) == Some((val, []))
  {
    LenencIntRoundTrip(val, []);
    assert (buffer + LenencInt(val))[|buffer|..] == LenencInt(val) + [];
    buffer + LenencInt(val)
  }

  /** Protocol::LengthEncodedString: the byte length, then the bytes. */
  function LenencStr(s: Bytes): (r: Bytes)
    requires |s| < UINT64_LIMIT
  {
    LenencInt(|s|) + s
  }

  /** Reads one length-encoded string off the front; returns it and what follows. */
  function DecodeLenencStr(bs: Bytes): (r: Option<(Bytes, Bytes)>)
    ensures r.Some? ==> |r.value.0| + |r.value.1| < |bs|
                        && bs[|bs| - |r.value.0| - |r.value.1|..] == r.value.0 + r.value.1
  {
    var (n, rest) :- DecodeLenencInt(bs);
    if n <= |rest| then Some((rest[..n], rest[n..])) else None
  }

  lemma LenencStrRoundTrip(s: Bytes, rest: Bytes)
    requires |s| < UINT64_LIMIT
    ensures DecodeLenencStr(LenencStr(s) + rest) == Some((s, rest))
  {
    LenencIntRoundTrip(|s|, s + rest);
    assert LenencStr(s) + rest == LenencInt(|s|) + (s + rest);
    assert (s + rest)[..|s|] == s;
    assert (s + rest)[|s|..] == rest;
  }

  /** Appending a length-encoded string appends its encoding. */
  lemma AppendLenencStrIs(buffer: Bytes, value: Bytes)
    requires |value| < UINT64_LIMIT
    ensures AppendLenencStr(buffer, value) == buffer + LenencStr(value)
  {
  }

  /** The empty string is the single byte 0x00. */
  lemma LenencStrEmpty()
    ensures LenencStr([]) == [0x00]
  {
  }

  /** append_lenenc_str: append_lenenc_int of the byte length, then append_str. */
  function AppendLenencStr(buffer: Bytes, value: Bytes): (r: Bytes)
    requires |value| < UINT64_LIMIT
    ensures |r| > |buffer| + |value| && r[..|buffer|] == buffer
    ensures DecodeLenencStr(r[|buffer|..]) == Some((value, []))
  {
    var r := AppendStr(AppendLenencInt(buffer, |value|), value);
    assert r == buffer + LenencStr(value);
    LenencStrRoundTrip(value, []);
    assert r[|buffer|..] == LenencStr(value) + [];
    r
  }
}
