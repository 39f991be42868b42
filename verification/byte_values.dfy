/** Octets as bit vectors, and their values as integers. */
module ByteValues {

  type byte = bv8

  /** The low eight bits of an integer. */
  function Octet(x: int): byte {
    (x % 0x100) as bv8
  }

  function Value(b: byte): (v: nat)
    ensures v < 0x100
  {
    b as int
  }

  lemma ByteOf(x: nat)
    requires x < 0x100
    ensures (x as bv8) as int == x
  {
    assert ((x % 0x100) as bv8) as int == x;
  }

  lemma OctetValue(x: int)
    ensures Value(Octet(x)) == x % 0x100
  {
    ByteOf(x % 0x100);
  }
}
