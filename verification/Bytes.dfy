/** Bytes, machine words and their little-endian encoding. */
module Bytes {

  type Byte = b: int | 0 <= b < 256
  type U32 = x: int | 0 <= x < 0x1_0000_0000
  type U64 = x: int | 0 <= x < 0x1_0000_0000_0000_0000

  const UINT32_MAX: int := 0xFFFF_FFFF
  const UINT64_MAX: int := 0xFFFF_FFFF_FFFF_FFFF

  function Pow256(n: nat): (p: nat)
    ensures p > 0
  {
    if n == 0 then 1 else 256 * Pow256(n - 1)
  }

  function Store(n: nat, value: nat): (r: seq<Byte>)
    ensures |r| == n
  {
    if n == 0 then [] else [value % 256] + Store(n - 1, value / 256)
  }

  function Load(bytes: seq<Byte>): (r: nat)
    ensures r < Pow256(|bytes|)
  {
    if bytes == [] then 0 else bytes[0] + 256 * Load(bytes[1..])
  }

  lemma {:induction false} LoadStore(n: nat, value: nat)
    requires value < Pow256(n)
    ensures Load(Store(n, value)) == value
  {
    if n != 0 {
      LoadStore(n - 1, value / 256);
      assert Store(n, value)[1..] == Store(n - 1, value / 256);
    }
  }

  function StoreU32(value: U32): (r: seq<Byte>)
    ensures |r| == 4
  {
    Store(4, value)
  }

  function StoreU64(value: U64): (r: seq<Byte>)
    ensures |r| == 8
  {
    Store(8, value)
  }

  function LoadU32(bytes: seq<Byte>): (r: U32)
    requires |bytes| == 4
  {
    assert Pow256(4) == 0x1_0000_0000 by { assert Pow256(2) == 0x1_0000; }
    Load(bytes)
  }

  function LoadU64(bytes: seq<Byte>): (r: U64)
    requires |bytes| == 8
  {
    assert Pow256(8) == 0x1_0000_0000_0000_0000 by {
      assert Pow256(2) == 0x1_0000;
      assert Pow256(4) == 0x1_0000_0000;
      assert Pow256(6) == 0x1_0000_0000_0000;
    }
    Load(bytes)
  }

  lemma U32RoundTrip(value: U32)
    ensures LoadU32(StoreU32(value)) == value
  {
    assert Pow256(2) == 0x1_0000;
    assert Pow256(4) == 0x1_0000_0000;
    LoadStore(4, value);
  }

  lemma U64RoundTrip(value: U64)
    ensures LoadU64(StoreU64(value)) == value
  {
    assert Pow256(2) == 0x1_0000;
    assert Pow256(4) == 0x1_0000_0000;
    assert Pow256(6) == 0x1_0000_0000_0000;
    assert Pow256(8) == 0x1_0000_0000_0000_0000;
    LoadStore(8, value);
  }

  function Zeros(n: nat): (r: seq<Byte>)
    ensures |r| == n
  {
    seq(n, _ => 0)
  }
}
