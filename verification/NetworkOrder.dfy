/** Big-endian numbers, as TPM structures and big.Int write them. */
module NetworkOrder {
  import opened Bytes

  /** The number whose big-endian representation is b. */
  function BigEndian(b: bytes): (n: nat)
    ensures n < Pow256(|b|)
  {
    if b == [] then 0 else 256 * BigEndian(b[..|b| - 1]) + b[|b| - 1]
  }

  /** The k low-order bytes of n, most significant first. */
  function ToBigEndian(n: nat, k: nat): (b: bytes)
    ensures |b| == k
  {
    if k == 0 then [] else ToBigEndian(n / 256, k - 1) + [n % 256]
  }

  lemma {:induction false} BigEndianOf(n: nat, k: nat)
    requires n < Pow256(k)
    ensures BigEndian(ToBigEndian(n, k)) == n
  {
    if k == 0 {
    } else {
      BigEndianOf(n / 256, k - 1);
      assert ToBigEndian(n, k)[..k - 1] == ToBigEndian(n / 256, k - 1);
    }
  }

  lemma {:induction false} ToBigEndianOf(b: bytes)
    ensures ToBigEndian(BigEndian(b), |b|) == b
  {
    if b == [] {
    } else {
      ToBigEndianOf(b[..|b| - 1]);
      assert BigEndian(b) % 256 == b[|b| - 1] && BigEndian(b) / 256 == BigEndian(b[..|b| - 1]);
    }
  }

  lemma BigEndianMore(b: bytes, x: byte)
    ensures BigEndian(b + [x]) == 256 * BigEndian(b) + x
  {
  }

  lemma Big16Of(x: byte, y: byte)
    ensures BigEndian([x, y]) == 0x100 * x + y
  {
  }

  lemma Big32Of(x: byte, y: byte, z: byte, w: byte)
    ensures BigEndian([x, y, z, w]) == 0x100_0000 * x + 0x1_0000 * y + 0x100 * z + w
  {
    assert [x, y, z, w] == [x, y] + [z] + [w];
    Big16Of(x, y);
    BigEndianMore([x, y], z);
    BigEndianMore([x, y] + [z], w);
  }

  function Big16(n: uint16): (b: bytes)
    ensures |b| == 2 && BigEndian(b) == n
  {
    Big16Of(n / 0x100, n % 0x100);
    [n / 0x100, n % 0x100]
  }

  function Big32(n: uint32): (b: bytes)
    ensures |b| == 4 && BigEndian(b) == n
  {
    var a := n / 0x100;
    var b := a / 0x100;
    var c := b / 0x100;
    Big32Of(c, b % 0x100, a % 0x100, n % 0x100);
    [c, b % 0x100, a % 0x100, n % 0x100]
  }
}
