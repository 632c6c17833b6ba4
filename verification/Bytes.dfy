/** Bytes and the big-endian integers of encoding/binary. */
module Bytes {

  type byte = x: int | 0 <= x < 256
  type uint32 = x: int | 0 <= x < 0x1_0000_0000
  type uint64 = x: int | 0 <= x < 0x1_0000_0000_0000_0000

  function Pow256(n: nat): (p: nat)
    ensures p >= 1
  {
    if n == 0 then 1 else 256 * Pow256(n - 1)
  }

  lemma Widths()
    ensures Pow256(2) == 0x1_0000
    ensures Pow256(4) == 0x1_0000_0000
    ensures Pow256(8) == 0x1_0000_0000_0000_0000
  {
    assert Pow256(2) == 0x1_0000;
    assert Pow256(3) == 0x100_0000;
    assert Pow256(4) == 0x1_0000_0000;
    assert Pow256(5) == 0x100_0000_0000;
    assert Pow256(6) == 0x1_0000_0000_0000;
    assert Pow256(7) == 0x100_0000_0000_0000;
  }

  /** The low `n` bytes of `x`, most significant first. */
  function Put(x: nat, n: nat): (b: seq<byte>)
    ensures |b| == n
  {
    if n == 0 then [] else Put(x / 256, n - 1) + [x % 256]
  }

  /** The number that `b` spells in base 256. */
  function Get(b: seq<byte>): (x: nat)
    ensures x < Pow256(|b|)
  {
    if b == [] then 0 else Get(b[..|b| - 1]) * 256 + b[|b| - 1]
  }

  lemma {:induction false} GetPut(x: nat, n: nat)
    requires x < Pow256(n)
    ensures Get(Put(x, n)) == x
  {
    if n > 0 {
      GetPut(x / 256, n - 1);
      assert Put(x, n)[..n - 1] == Put(x / 256, n - 1);
    }
  }

  lemma {:induction false} PutGet(b: seq<byte>)
    ensures Put(Get(b), |b|) == b
  {
    if b != [] {
      PutGet(b[..|b| - 1]);
      assert b == b[..|b| - 1] + [b[|b| - 1]];
    }
  }

  /** Reading back the 2-, 4- and 8-byte integers of the wire format. */
  lemma IntegersRoundTrip(x: nat)
    ensures x < 0x1_0000 ==> Get(Put(x, 2)) == x
    ensures x < 0x1_0000_0000 ==> Get(Put(x, 4)) == x
    ensures x < 0x1_0000_0000_0000_0000 ==> Get(Put(x, 8)) == x
  {
    Widths();
    if x < Pow256(2) { GetPut(x, 2); }
    if x < Pow256(4) { GetPut(x, 4); }
    if x < Pow256(8) { GetPut(x, 8); }
  }

  function Uint16(b: seq<byte>): (x: nat)
    requires |b| == 2
    ensures x < 0x1_0000 && Put(x, 2) == b
  {
    Widths(); PutGet(b); Get(b)
  }

  function Uint32(b: seq<byte>): (x: uint32)
    requires |b| == 4
    ensures Put(x, 4) == b
  {
    Widths(); PutGet(b); Get(b)
  }

  function Uint64(b: seq<byte>): (x: uint64)
    requires |b| == 8
    ensures Put(x, 8) == b
  {
    Widths(); PutGet(b); Get(b)
  }

  function Zeros(n: nat): (b: seq<byte>)
    ensures |b| == n
  {
    seq(n, _ => 0)
  }
}
