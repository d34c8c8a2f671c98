/** Unsigned big-endian integers over bytes, as Python's `int.from_bytes(bs, 'big')`
    and `n.to_bytes(len, 'big')` compute them. */
module Bytes {

  type byte = x: int | 0 <= x < 256
  type uint16 = x: int | 0 <= x < 0x1_0000

  /** 256^len: one more than the largest value `len` bytes can hold. */
  function Pow256(len: nat): nat
  {
    if len == 0 then 1 else 256 * Pow256(len - 1)
  }

  /** `int.from_bytes(bs, 'big')`: the first byte is the most significant, so
      the value of n bytes is below 256^n. */
  function FromBytesBE(bs: seq<byte>): (n: nat)
    ensures n < Pow256(|bs|)
  {
    if bs == [] then 0
    else
      var init := bs[..|bs| - 1];
      var high := FromBytesBE(init);
      assert 256 * (high + 1) <= 256 * Pow256(|init|);
      256 * high + bs[|bs| - 1]
  }

  /** `n.to_bytes(len, 'big')` for an `n` that fits; Python raises
      OverflowError otherwise, which callers check first. */
  function ToBytesBE(n: nat, len: nat): (bs: seq<byte>)
    requires n < Pow256(len)
    ensures |bs| == len
    ensures len > 0 ==> bs[len - 1] == n % 256
  {
    if len == 0 then [] else ToBytesBE(n / 256, len - 1) + [n % 256]
  }

  /** Decoding what was encoded gives the number back. */
  lemma {:induction false} FromToBytesBE(n: nat, len: nat)
    requires n < Pow256(len)
    ensures FromBytesBE(ToBytesBE(n, len)) == n
  {
    if len > 0 {
      var bs := ToBytesBE(n, len);
      FromToBytesBE(n / 256, len - 1);
      assert bs[..|bs| - 1] == ToBytesBE(n / 256, len - 1);
    }
  }

  /** Encoding what was decoded gives the bytes back. */
  lemma {:induction false} ToFromBytesBE(bs: seq<byte>)
    ensures ToBytesBE(FromBytesBE(bs), |bs|) == bs
  {
    if bs != [] {
      var init := bs[..|bs| - 1];
      ToFromBytesBE(init);
      var n := FromBytesBE(bs);
      assert n / 256 == FromBytesBE(init) && n % 256 == bs[|bs| - 1];
      assert init + [bs[|bs| - 1]] == bs;
    }
  }

  /** Two bytes hold exactly the 16-bit values. */
  lemma Pow256Two()
    ensures Pow256(2) == 0x1_0000
  {
    assert Pow256(2) == 256 * Pow256(1) == 256 * 256 * Pow256(0);
  }

  /** Two bytes read big-endian: the high byte counts 256 times. */
  lemma TwoBytesValue(hi: byte, lo: byte)
    ensures FromBytesBE([hi, lo]) == 256 * (hi as int) + lo
  {
    assert [hi, lo][..1] == [hi];
    assert [hi][..0] == [];
  }

  /** The two-byte case used by the SCIF header: high byte, then low byte. */
  lemma Uint16Layout(n: uint16)
    ensures n < Pow256(2)
    ensures ToBytesBE(n, 2) == [n / 256, n % 256]
    ensures FromBytesBE([n / 256, n % 256]) == n
  {
    Pow256Two();
    FromToBytesBE(n, 2);
  }
}
