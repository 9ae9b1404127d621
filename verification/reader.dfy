/** What a client does with the bytes the encoder produces: read fields off
    the front of a payload. These readers are the reference the message
    encoders are checked against; each returns the field it read and the
    bytes that follow, or None when the bytes run out. */
module Reader {
  import opened Wrappers
  import opened Primitives

  /** Reads a fixed-length byte string. */
  function Take(bs: Bytes, n: nat): (r: Option<(Bytes, Bytes)>)
    ensures r.Some? <==> n <= |bs|
    ensures r.Some? ==> r.value.0 + r.value.1 == bs && |r.value.0| == n
  {
    if n <= |bs| then Some((bs[..n], bs[n..])) else None
  }

  /** Reads an n-byte little-endian integer. */
  function TakeInt(bs: Bytes, n: nat): (r: Option<(nat, Bytes)>)
    ensures r.Some? <==> n <= |bs|
    ensures r.Some? ==> r.value.0 < Pow256(n) && |r.value.1| == |bs| - n
  {
    if n <= |bs| then Some((DecodeLittleEndian(bs[..n]), bs[n..])) else None
  }

  /** Reads a string terminated by a 0x00 byte; the terminator is consumed. */
  function TakeCString(bs: Bytes): (r: Option<(Bytes, Bytes)>)
    ensures r.Some? ==> r.value.0 + [0] + r.value.1 == bs && 0 !in r.value.0
  {
    if |bs| == 0 then None
    else if bs[0] == 0 then Some(([], bs[1..]))
    else
      var (s, rest) :- TakeCString(bs[1..]);
      Some(([bs[0]] + s, rest))
  }

  lemma TakeConcat(a: Bytes, b: Bytes)
    ensures Take(a + b, |a|) == Some((a, b))
  {
    assert (a + b)[..|a|] == a && (a + b)[|a|..] == b;
  }

  lemma TakeIntConcat(v: nat, n: nat, rest: Bytes)
    requires v < Pow256(n)
    ensures TakeInt(LittleEndian(v, n) + rest, n) == Some((v, rest))
  {
    var bs := LittleEndian(v, n) + rest;
    assert bs[..n] == LittleEndian(v, n) && bs[n..] == rest;
    LittleEndianExact(v, n);
  }

  lemma {:induction false} TakeCStringConcat(s: Bytes, rest: Bytes)
    requires 0 !in s
    ensures TakeCString(s + [0] + rest) == Some((s, rest))
  {
    var bs := s + [0] + rest;
    if |s| == 0 {
      assert bs[1..] == rest;
    } else {
      assert bs[1..] == s[1..] + [0] + rest;
      TakeCStringConcat(s[1..], rest);
      assert [s[0]] + s[1..] == s;
    }
  }
}
