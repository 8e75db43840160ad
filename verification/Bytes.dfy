/** Bytes, and fixed-width big-endian integers over them. */
module Bytes {

  type byte = x: int | 0 <= x < 256
  type bytes = seq<byte>

  // One past the largest u32.
  const U32: int := 0x1_0000_0000

  // One past the largest u64.
  const U64: int := 0x1_0000_0000_0000_0000

  /** `256 ^ k`. */
  function Pow256(k: nat): (p: nat)
    ensures p > 0
  {
    if k == 0 then 1 else 256 * Pow256(k - 1)
  }

  /** The low `k` bytes of `n`, most significant first. */
  function BE(n: nat, k: nat): (b: bytes)
    ensures |b| == k
  {
    if k == 0 then [] else BE(n / 256, k - 1) + [n % 256]
  }

  function FromBE(b: bytes): nat {
    if b == [] then 0 else 256 * FromBE(b[..|b| - 1]) + b[|b| - 1]
  }

  lemma {:induction false} FromBEOfBE(n: nat, k: nat)
    requires n < Pow256(k)
    ensures FromBE(BE(n, k)) == n
  {
    if k > 0 {
      FromBEOfBE(n / 256, k - 1);
      assert BE(n, k)[..k - 1] == BE(n / 256, k - 1);
    }
  }

  lemma {:induction false} FromBEBound(b: bytes)
    ensures FromBE(b) < Pow256(|b|)
  {
    if b != [] {
      FromBEBound(b[..|b| - 1]);
    }
  }

  /** The widths CBOR arguments come in. */
  lemma Pow256Values()
    ensures Pow256(1) == 0x100 && Pow256(2) == 0x1_0000
    ensures Pow256(4) == 0x1_0000_0000 && Pow256(8) == U64
  {
    assert Pow256(1) == 256 * Pow256(0);
    assert Pow256(2) == 256 * Pow256(1);
    assert Pow256(3) == 256 * Pow256(2);
    assert Pow256(4) == 256 * Pow256(3);
    assert Pow256(5) == 256 * Pow256(4);
    assert Pow256(6) == 256 * Pow256(5);
    assert Pow256(7) == 256 * Pow256(6);
    assert Pow256(8) == 256 * Pow256(7);
  }

  // ----- Parts, one after the other

  function Concat(parts: seq<bytes>): bytes {
    if parts == [] then [] else parts[0] + Concat(parts[1..])
  }

  lemma ConcatFirst(first: bytes, items: seq<bytes>)
    ensures Concat([first] + items) == first + Concat(items)
  {
    assert ([first] + items)[1..] == items;
  }

  lemma ConcatNothing()
    ensures Concat([]) == []
  {
  }

  /** A part is where the parts before it end. */
  lemma {:induction false} ConcatAt(parts: seq<bytes>, i: nat)
    requires i < |parts|
    ensures Concat(parts) == Concat(parts[..i]) + parts[i] + Concat(parts[i + 1..])
    ensures |Concat(parts[..i + 1])| == |Concat(parts[..i])| + |parts[i]|
  {
    if i == 0 {
      assert parts[..0] == [] && parts[..1] == [parts[0]];
      ConcatFirst(parts[0], []);
    } else {
      var rest := parts[1..];
      ConcatAt(rest, i - 1);
      assert parts[..i] == [parts[0]] + rest[..i - 1] && parts[..i + 1] == [parts[0]] + rest[..i];
      ConcatFirst(parts[0], rest[..i - 1]);
      ConcatFirst(parts[0], rest[..i]);
      var x, y, z, w := parts[0], Concat(rest[..i - 1]), rest[i - 1], Concat(rest[i..]);
      assert x + (y + z + w) == x + y + z + w;
      assert parts[i + 1..] == rest[i..];
    }
  }
}
