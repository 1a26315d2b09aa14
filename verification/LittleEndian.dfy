/** Bytes and little-endian words. */
module LittleEndian {

  type Byte = b: nat | b < 256

  type Bytes = seq<Byte>

  function Pow256(n: nat): nat {
    if n == 0 then 1 else 256 * Pow256(n - 1)
  }

  /** The low `n` bytes of a value, lowest first. */
  function Encode(value: nat, n: nat): (bytes: Bytes)
    ensures |bytes| == n
    decreases n
  {
    if n == 0 then [] else [value % 256] + Encode(value / 256, n - 1)
  }

  function Decode(bytes: Bytes): nat {
    if bytes == [] then 0 else bytes[0] + 256 * Decode(bytes[1..])
  }

  lemma {:induction false} DecodeEncode(value: nat, n: nat)
    requires value < Pow256(n)
    ensures Decode(Encode(value, n)) == value
    decreases n
  {
    if n > 0 {
      assert value / 256 < Pow256(n - 1);
      DecodeEncode(value / 256, n - 1);
      assert Encode(value, n)[1..] == Encode(value / 256, n - 1);
    }
  }

  lemma {:induction false} DecodeBounded(bytes: Bytes)
    ensures Decode(bytes) < Pow256(|bytes|)
  {
    if bytes != [] {
      DecodeBounded(bytes[1..]);
    }
  }

  lemma WordRange()
    ensures Pow256(8) == 0x1_0000_0000_0000_0000
  {
    assert Pow256(4) == 0x1_0000_0000;
  }
}
