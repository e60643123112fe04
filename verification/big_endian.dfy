/** Rust's `to_be_bytes` / `from_be_bytes` on the unsigned integer widths the
    tracker protocol uses, and the two's-complement view of a signed `i32`. */
module BigEndian {
  import opened Bytes

  function Pow256(n: nat): (r: nat)
    ensures 0 < r
  {
    if n == 0 then 1 else 256 * Pow256(n - 1)
  }

  const U16_LIMIT: nat := 0x1_0000
  const U32_LIMIT: nat := 0x1_0000_0000
  const U64_LIMIT: nat := 0x1_0000_0000_0000_0000

  type U16 = x: nat | x < U16_LIMIT
  type U32 = x: nat | x < U32_LIMIT
  type U64 = x: nat | x < U64_LIMIT

  lemma Pow256Widths()
    ensures Pow256(2) == U16_LIMIT
    ensures Pow256(4) == U32_LIMIT
    ensures Pow256(8) == U64_LIMIT
  {
  }

  /** The `n` bytes of `x`, most significant first. */
  function ToBeBytes(x: nat, n: nat): (r: seq<Byte>)
    requires x < Pow256(n)
    ensures |r| == n
  {
    if n == 0 then [] else ToBeBytes(x / 256, n - 1) + [x % 256]
  }

  /** The unsigned number whose big-endian bytes are `bs`. */
  function FromBeBytes(bs: seq<Byte>): (r: nat)
    ensures r < Pow256(|bs|)
  {
    if |bs| == 0 then 0 else FromBeBytes(bs[..|bs| - 1]) * 256 + bs[|bs| - 1]
  }

  /** Decoding inverts encoding. */
  lemma {:induction false} FromToBeBytes(x: nat, n: nat)
    requires x < Pow256(n)
    ensures FromBeBytes(ToBeBytes(x, n)) == x
  {
    if n > 0 {
      var r := ToBeBytes(x, n);
      assert r[..n - 1] == ToBeBytes(x / 256, n - 1);
      FromToBeBytes(x / 256, n - 1);
    }
  }

  /** Encoding inverts decoding: a fixed-width field is determined by its value. */
  lemma {:induction false} ToFromBeBytes(bs: seq<Byte>)
    ensures ToBeBytes(FromBeBytes(bs), |bs|) == bs
  {
    if |bs| > 0 {
      var init := bs[..|bs| - 1];
      ToFromBeBytes(init);
      assert FromBeBytes(bs) / 256 == FromBeBytes(init);
      assert bs == init + [bs[|bs| - 1]];
    }
  }

  /** Two fields of the same width are equal exactly when their values are. */
  lemma FromBeBytesInjective(a: seq<Byte>, b: seq<Byte>)
    requires |a| == |b|
    ensures FromBeBytes(a) == FromBeBytes(b) <==> a == b
  {
    if FromBeBytes(a) == FromBeBytes(b) {
      ToFromBeBytes(a);
      ToFromBeBytes(b);
    }
  }

  function U16ToBeBytes(x: U16): (r: seq<Byte>)
    ensures |r| == 2 && FromBeBytes(r) == x
  {
    Pow256Widths();
    FromToBeBytes(x, 2);
    ToBeBytes(x, 2)
  }

  function U32ToBeBytes(x: U32): (r: seq<Byte>)
    ensures |r| == 4 && FromBeBytes(r) == x
  {
    Pow256Widths();
    FromToBeBytes(x, 4);
    ToBeBytes(x, 4)
  }

  function U64ToBeBytes(x: U64): (r: seq<Byte>)
    ensures |r| == 8 && FromBeBytes(r) == x
  {
    Pow256Widths();
    FromToBeBytes(x, 8);
    ToBeBytes(x, 8)
  }

  /** Rust's `i32`. */
  type I32 = x: int | -0x8000_0000 <= x < 0x8000_0000

  /** `i32::to_be_bytes`: the big-endian bytes of the two's-complement
      pattern, i.e. of `x mod 2^32`. */
  function I32ToBeBytes(x: I32): (r: seq<Byte>)
    ensures |r| == 4
    ensures FromBeBytes(r) == if x < 0 then x + U32_LIMIT else x
  {
    U32ToBeBytes(if x < 0 then x + U32_LIMIT else x)
  }
}
