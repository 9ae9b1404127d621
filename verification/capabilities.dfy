/** The capability flags of the server greeting: a 32-bit mask combined with
    bitwise or. Only the three bits the encoder consults are named. */
module Capabilities {
  import opened Primitives

  type Flags = uint32

  /** Bit positions of the named capabilities. */
  const PROTOCOL_41_BIT: nat := 9
  const SECURE_CONNECTION_BIT: nat := 15
  const PLUGIN_AUTH_BIT: nat := 19

  const PROTOCOL_41: Flags := 0x0000_0200
  const SECURE_CONNECTION: Flags := 0x0000_8000
  const PLUGIN_AUTH: Flags := 0x0008_0000

  function Pow2(k: nat): (r: nat)
    ensures r >= 1
  {
    if k == 0 then 1 else 2 * Pow2(k - 1)
  }

  lemma Pow2Of32()
    ensures Pow2(32) == 0x1_0000_0000
  {
    assert Pow2(8) == 0x100;
    assert Pow2(16) == 0x1_0000;
    assert Pow2(24) == 0x100_0000;
  }

  /** Whether bit k of the mask is set. */
  predicate Has(caps: nat, k: nat) {
    (caps / Pow2(k)) % 2 == 1
  }

  /** Bitwise or, one bit at a time from the least significant. */
  function Or(a: nat, b: nat): nat
    decreases a + b
  {
    if a == 0 && b == 0 then 0
    else (if a % 2 == 1 || b % 2 == 1 then 1 else 0) + 2 * Or(a / 2, b / 2)
  }

  lemma ShiftBit(x: nat, k: nat)
    requires k > 0
    ensures (x / Pow2(k)) % 2 == ((x / 2) / Pow2(k - 1)) % 2
  {
    DivDiv(x, 2, Pow2(k - 1));
  }

  /** Bit k of the or is set exactly when it is set in either operand. */
  lemma {:induction false} OrBit(a: nat, b: nat, k: nat)
    ensures Has(Or(a, b), k) <==> Has(a, k) || Has(b, k)
    decreases a + b
  {
    var r := Or(a, b);
    if a == 0 && b == 0 {
      assert r == 0;
    } else {
      var low := if a % 2 == 1 || b % 2 == 1 then 1 else 0;
      var high := Or(a / 2, b / 2);
      assert r == low + 2 * high;
      DivModUnique(r, 2, high, low);
      if k == 0 {
        assert Has(r, 0) <==> r % 2 == 1;
      } else {
        ShiftBit(r, k);
        ShiftBit(a, k);
        ShiftBit(b, k);
        assert Has(r, k) == Has(high, k - 1);
        OrBit(a / 2, b / 2, k - 1);
      }
    }
  }

  /** The or of two n-bit masks is an n-bit mask. */
  lemma {:induction false} OrBound(a: nat, b: nat, n: nat)
    requires a < Pow2(n) && b < Pow2(n)
    ensures Or(a, b) < Pow2(n)
    decreases a + b
  {
    if a == 0 && b == 0 {
    } else {
      assert n > 0;
      OrBound(a / 2, b / 2, n - 1);
    }
  }

  /** The mask with the bits of both operands (`a | b`). */
  function Union(a: Flags, b: Flags): (r: Flags)
    ensures forall k: nat :: Has(r, k) <==> Has(a, k) || Has(b, k)
  {
    Pow2Of32();
    OrBound(a, b, 32);
    forall k: nat
      ensures Has(Or(a, b), k) <==> Has(a, k) || Has(b, k)
    {
      OrBit(a, b, k);
    }
    Or(a, b)
  }

  /** The capabilities the greeting announces unless told otherwise. */
  function DefaultCapabilities(): (r: Flags)
    ensures Has(r, PROTOCOL_41_BIT) && Has(r, SECURE_CONNECTION_BIT)
    ensures !Has(r, PLUGIN_AUTH_BIT)
  {
    NamedBits();
    assert Has(PROTOCOL_41, PROTOCOL_41_BIT) && Has(SECURE_CONNECTION, SECURE_CONNECTION_BIT);
    assert !Has(PROTOCOL_41, PLUGIN_AUTH_BIT) && !Has(SECURE_CONNECTION, PLUGIN_AUTH_BIT);
    Union(PROTOCOL_41, SECURE_CONNECTION)
  }

  /** The lower two bytes, written before the character set in the greeting. */
  function Low16(caps: Flags): uint16 {
    caps % 0x1_0000
  }

  /** The upper two bytes, written after the status flags in the greeting. */
  function High16(caps: Flags): uint16 {
    caps / 0x1_0000
  }

  /** A mask from its two halves, as a client rebuilds it from the greeting. */
  function JoinHalves(low: nat, high: nat): nat {
    low + 0x1_0000 * high
  }

  /** The two halves put back together give the whole mask. */
  lemma SplitRoundTrip(caps: Flags)
    ensures JoinHalves(Low16(caps), High16(caps)) == caps
  {
  }

  /** Each named mask is the single bit at its position. */
  lemma NamedBits()
    ensures PROTOCOL_41 == Pow2(PROTOCOL_41_BIT)
    ensures SECURE_CONNECTION == Pow2(SECURE_CONNECTION_BIT)
    ensures PLUGIN_AUTH == Pow2(PLUGIN_AUTH_BIT)
  {
    assert Pow2(4) == 0x10;
    assert Pow2(9) == 0x200;
    assert Pow2(15) == 0x8000;
  }
}
