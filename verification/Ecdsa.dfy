/**
 The digest an ECDSA key of a TPM signs (attest/wrapped_tpm20.go: signECDSA), which
 section 6.4 of FIPS 186-4 takes to be the leftmost bits of the hash.
 */
module Ecdsa {
  import opened Arithmetic
  import opened Bytes
  import opened NetworkOrder

  type bit = n: int | 0 <= n < 2

  function Min(a: nat, b: nat): nat {
    if a < b then a else b
  }

  // ----- Bit strings -----

  /** The k low-order bits of x, most significant first. */
  function LowBits(x: nat, k: nat): (r: seq<bit>)
    ensures |r| == k
  {
    if k == 0 then [] else LowBits(x / 2, k - 1) + [x % 2]
  }

  function Bits(b: bytes): (r: seq<bit>)
    ensures |r| == 8 * |b|
  {
    if b == [] then [] else Bits(b[..|b| - 1]) + LowBits(b[|b| - 1], 8)
  }

  function Value(bits: seq<bit>): (n: nat)
    ensures n < Pow2(|bits|)
  {
    if bits == [] then 0 else 2 * Value(bits[..|bits| - 1]) + bits[|bits| - 1]
  }

  /** The number the k leftmost bits of a digest stand for, or all its bits when it is shorter. */
  function Leftmost(digest: bytes, k: nat): nat {
    Value(Bits(digest)[..Min(8 * |digest|, k)])
  }

  lemma ValueMore(bits: seq<bit>, x: bit)
    ensures Value(bits + [x]) == 2 * Value(bits) + x
  {
  }

  lemma Doubled(v: nat, p: nat, x: nat)
    ensures 2 * (v * p + x / 2) + x % 2 == v * (2 * p) + x
  {
  }

  lemma {:induction false} LowBitsValue(bits: seq<bit>, x: nat, k: nat)
    requires x < Pow2(k)
    ensures Value(bits + LowBits(x, k)) == Value(bits) * Pow2(k) + x
  {
    if k == 0 {
      assert bits + LowBits(x, k) == bits;
    } else {
      LowBitsValue(bits, x / 2, k - 1);
      ValueMore(bits + LowBits(x / 2, k - 1), x % 2);
      assert bits + LowBits(x, k) == bits + LowBits(x / 2, k - 1) + [x % 2];
      Doubled(Value(bits), Pow2(k - 1), x);
    }
  }

  lemma {:induction false} BitsValue(b: bytes)
    ensures Value(Bits(b)) == BigEndian(b)
  {
    if b == [] {
    } else {
      BitsValue(b[..|b| - 1]);
      assert Pow2(4) == 16 && Pow2(8) == 256;
      LowBitsValue(Bits(b[..|b| - 1]), b[|b| - 1], 8);
    }
  }

  lemma {:induction false} BitsPrefix(b: bytes, m: nat)
    requires m <= |b|
    ensures Bits(b[..m]) == Bits(b)[..8 * m]
  {
    if m == |b| {
      assert b[..m] == b;
    } else {
      var front := b[..|b| - 1];
      BitsPrefix(front, m);
      assert front[..m] == b[..m];
    }
  }

  lemma HalveThenDivide(v: nat, p: nat)
    requires p > 0
    ensures v / 2 / p == v / (2 * p)
  {
    var q, r := v / 2 / p, v / 2 % p;
    assert v / 2 == q * p + r;
    assert v == q * (2 * p) + (2 * r + v % 2);
    Quotient(v, 2 * p, q, 2 * r + v % 2);
  }

  /** Dropping bits on the right is the right shift. */
  lemma {:induction false} ShiftDropsBits(bits: seq<bit>, k: nat)
    requires k <= |bits|
    ensures Value(bits[..k]) == Value(bits) / Pow2(|bits| - k)
    decreases |bits|
  {
    if k == |bits| {
      assert bits[..k] == bits;
    } else {
      var front := bits[..|bits| - 1];
      ShiftDropsBits(front, k);
      assert front[..k] == bits[..k];
      assert Value(bits) / 2 == Value(front);
      HalveThenDivide(Value(bits), Pow2(|front| - k));
    }
  }

  lemma {:induction false} PowerOf256(k: nat)
    ensures Pow256(k) == Pow2(8 * k)
  {
    if k == 0 {
    } else {
      PowerOf256(k - 1);
      var p := Pow2(8 * k - 8);
      assert Pow2(8 * k - 6) == 4 * p;
      assert Pow2(8 * k - 4) == 16 * p;
      assert Pow2(8 * k - 2) == 64 * p;
    }
  }

  lemma {:induction false} Pow2Monotone(a: nat, b: nat)
    requires a <= b
    ensures Pow2(a) <= Pow2(b)
  {
    if a == b {
    } else {
      Pow2Monotone(a, b - 1);
    }
  }

  // ----- Truncation -----

  /** The shifted prefix is the leftmost bits of the whole digest, and fits the prefix and the order. */
  lemma TruncatedIsLeftmost(digest: bytes, orderBits: nat)
    ensures var n := Min(|digest|, (orderBits + 7) / 8);
            var prefix, excess := BigEndian(digest[..n]), 8 * n - orderBits;
            && Leftmost(digest, orderBits) == (if excess > 0 then prefix / Pow2(excess) else prefix)
            && Leftmost(digest, orderBits) < Pow256(n)
    ensures Leftmost(digest, orderBits) < Pow2(orderBits)
  {
    var n, k := Min(|digest|, (orderBits + 7) / 8), Min(8 * |digest|, orderBits);
    var prefix := Bits(digest)[..8 * n];
    BitsValue(digest[..n]);
    BitsPrefix(digest, n);
    ShiftDropsBits(prefix, k);
    assert prefix[..k] == Bits(digest)[..k];
    PowerOf256(n);
    Pow2Monotone(k, 8 * n);
    Pow2Monotone(k, orderBits);
  }

  /** big.Int.FillBytes on the first n bytes of a buffer. */
  method FillBytes(buf: array<byte>, n: nat, value: nat)
    requires n <= buf.Length && value < Pow256(n)
    modifies buf
    ensures buf[..n] == ToBigEndian(value, n)
    ensures buf[n..] == old(buf[n..])
  {
    var i, rest := n, value;
    while i > 0
      invariant 0 <= i <= n
      invariant ToBigEndian(value, n) == ToBigEndian(rest, i) + buf[i..n]
      invariant buf[n..] == old(buf[n..])
    {
      i := i - 1;
      buf[i] := rest % 256;
      rest := rest / 256;
      assert buf[i..n] == [buf[i]] + buf[i + 1..n];
    }
    assert buf[0..n] == buf[..n];
  }

  /**
   The first n bytes of the caller's digest become what the TPM is asked to sign; bytes
   beyond the order's length stay as they are.
   */
  method TruncateDigest(digest: array<byte>, orderBits: nat) returns (n: nat)
    modifies digest
    ensures n == Min(digest.Length, (orderBits + 7) / 8)
    ensures BigEndian(digest[..n]) == Leftmost(old(digest[..]), orderBits) < Pow2(orderBits)
    ensures digest[n..] == old(digest[n..])
  {
    var orderBytes := (orderBits + 7) / 8;
    n := digest.Length;
    if n > orderBytes {
      n := orderBytes;
    }
    TruncatedIsLeftmost(digest[..], orderBits);
    assert digest[..][..n] == digest[..n];
    var ret := BigEndian(digest[..n]);
    var excess := n * 8 - orderBits;
    if excess > 0 {
      ret := ret / Pow2(excess);
    }
    FillBytes(digest, n, ret);
    BigEndianOf(ret, n);
  }

  /** A digest is signed as it is unless the order ends inside one of its bytes. */
  lemma SignedAsGiven(digest: bytes, orderBits: nat)
    requires orderBits % 8 == 0 || 8 * |digest| <= orderBits
    ensures var n := Min(|digest|, (orderBits + 7) / 8);
            ToBigEndian(Leftmost(digest, orderBits), n) == digest[..n]
  {
    var n := Min(|digest|, (orderBits + 7) / 8);
    assert 8 * n <= orderBits;
    TruncatedIsLeftmost(digest, orderBits);
    ToBigEndianOf(digest[..n]);
  }
}
