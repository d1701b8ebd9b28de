/**
 Bytes, fixed-width unsigned integers, the little-endian wire encoding, and the
 reader over a byte buffer that every parser of the repository consumes.
 */
module Bytes {
  type byte = b: int | 0 <= b < 0x100
  type uint16 = n: int | 0 <= n < 0x1_0000
  type uint32 = n: int | 0 <= n < 0x1_0000_0000
  type uint64 = n: int | 0 <= n < 0x1_0000_0000_0000_0000
  type bytes = seq<byte>

  const TWO_32 := 0x1_0000_0000

  datatype Option<+T> = None | Some(value: T) {
    function GetOr(default: T): T {
      match this
      case None => default
      case Some(v) => v
    }
  }

  /** Go's conversion to uint32, which drops the high bits. */
  function Narrow32(n: int): (r: uint32)
    ensures 0 <= n < TWO_32 ==> r == n
  {
    n % 0x1_0000_0000
  }

  function Narrow16(n: int): (r: uint16)
    ensures 0 <= n < 0x1_0000 ==> r == n
  {
    n % 0x1_0000
  }

  /** What a parser makes of a buffer: a value and the unread rest, or failure. */
  datatype Parsed<+T> = Fail | Got(value: T, rest: bytes)

  /** A result prefixed by what was read before it. */
  function Before<T>(before: seq<T>, o: Option<seq<T>>): Option<seq<T>> {
    match o
    case None => None
    case Some(s) => Some(before + s)
  }

  lemma BeforeBefore<T>(a: seq<T>, b: seq<T>, o: Option<seq<T>>)
    ensures Before(a, Before(b, o)) == Before(a + b, o)
    ensures Before([], o) == o
    ensures Before(a, Some([])) == Some(a)
  {
    assert a + [] == a;
    if o.Some? {
      assert a + (b + o.value) == a + b + o.value;
      assert [] + o.value == o.value;
    }
  }

  function Pow256(k: nat): (p: nat)
    ensures p > 0
  {
    if k == 0 then 1 else 256 * Pow256(k - 1)
  }

  lemma Pow256Values()
    ensures Pow256(1) == 0x100
    ensures Pow256(2) == 0x1_0000
    ensures Pow256(4) == 0x1_0000_0000
    ensures Pow256(8) == 0x1_0000_0000_0000_0000
  {
  }

  /** The number whose little-endian representation is b. */
  function LittleEndian(b: bytes): (n: nat)
    ensures n < Pow256(|b|)
  {
    if b == [] then 0 else b[0] + 256 * LittleEndian(b[1..])
  }

  /** The k low-order bytes of n, least significant first. */
  function ToLittleEndian(n: nat, k: nat): (b: bytes)
    ensures |b| == k
  {
    if k == 0 then [] else [n % 256] + ToLittleEndian(n / 256, k - 1)
  }

  lemma {:induction false} DecodeEncode(n: nat, k: nat)
    requires n < Pow256(k)
    ensures LittleEndian(ToLittleEndian(n, k)) == n
  {
    if k == 0 {
    } else {
      DecodeEncode(n / 256, k - 1);
      assert ToLittleEndian(n, k)[1..] == ToLittleEndian(n / 256, k - 1);
    }
  }

  lemma {:induction false} EncodeDecode(b: bytes)
    ensures ToLittleEndian(LittleEndian(b), |b|) == b
  {
    if b == [] {
    } else {
      EncodeDecode(b[1..]);
      assert LittleEndian(b) % 256 == b[0] && LittleEndian(b) / 256 == LittleEndian(b[1..]);
    }
  }

  function U16(b: bytes): uint16
    requires |b| == 2
  {
    Pow256Values();
    LittleEndian(b)
  }

  function U32(b: bytes): uint32
    requires |b| == 4
  {
    Pow256Values();
    LittleEndian(b)
  }

  function U64(b: bytes): uint64
    requires |b| == 8
  {
    Pow256Values();
    LittleEndian(b)
  }

  lemma TimesTimes(a: nat, b: nat, c: nat)
    ensures a * (b * c) == (a * b) * c
  {
  }

  /** The bytes of a number have the weights 1, 256, 65536 and so on. */
  lemma {:induction false} LittleEndianConcat(a: bytes, b: bytes)
    ensures LittleEndian(a + b) == LittleEndian(a) + Pow256(|a|) * LittleEndian(b)
  {
    if a == [] {
      assert a + b == b;
    } else {
      assert (a + b)[1..] == a[1..] + b;
      LittleEndianConcat(a[1..], b);
      TimesTimes(256, Pow256(|a| - 1), LittleEndian(b));
    }
  }

  /** The least significant byte comes first. */
  lemma U16Of(x: byte, y: byte)
    ensures U16([x, y]) == x + 0x100 * y
  {
    LittleEndianConcat([x], [y]);
  }

  lemma U32Of(x: byte, y: byte, z: byte, w: byte)
    ensures U32([x, y, z, w]) == x + 0x100 * y + 0x1_0000 * z + 0x100_0000 * w
  {
    assert [x, y, z, w] == [x] + [y] + [z] + [w];
    LittleEndianConcat([x], [y]);
    LittleEndianConcat([x] + [y], [z]);
    LittleEndianConcat([x] + [y] + [z], [w]);
  }

  lemma U64Of(a: bytes, b: bytes)
    requires |a| == 4 && |b| == 4
    ensures U64(a + b) == U32(a) + 0x1_0000_0000 * U32(b)
  {
    Pow256Values();
    LittleEndianConcat(a, b);
  }

  /** Conversions keep a number's remainder: with their range this says which number they give. */
  lemma NarrowWraps(n: int)
    ensures Narrow32(n + 0x1_0000_0000) == Narrow32(n) && Narrow16(n + 0x1_0000) == Narrow16(n)
  {
  }

  function Put16(n: uint16): (b: bytes)
    ensures |b| == 2 && U16(b) == n
  {
    Pow256Values();
    DecodeEncode(n, 2);
    ToLittleEndian(n, 2)
  }

  function Put32(n: uint32): (b: bytes)
    ensures |b| == 4 && U32(b) == n
  {
    Pow256Values();
    DecodeEncode(n, 4);
    ToLittleEndian(n, 4)
  }

  lemma PutU16(b: bytes)
    requires |b| == 2
    ensures Put16(U16(b)) == b
  {
    EncodeDecode(b);
  }

  lemma PutU32(b: bytes)
    requires |b| == 4
    ensures Put32(U32(b)) == b
  {
    EncodeDecode(b);
  }

  function Copies(x: byte, n: nat): (b: bytes)
    ensures |b| == n && forall i | 0 <= i < n :: b[i] == x
  {
    seq(n, _ => x)
  }

  /** The bytes of an ASCII string, as Go's []byte(s). */
  function Ascii(s: string): (b: bytes)
    ensures |b| == |s| && forall i | 0 <= i < |s| && s[i] < 128 as char :: b[i] == s[i] as int
  {
    seq(|s|, i requires 0 <= i < |s| => s[i] as int % 256)
  }

  /** bytes.Buffer and bytes.Reader, reduced to their unread part. */
  class Buffer {
    var unread: bytes

    constructor (b: bytes)
      ensures unread == b
    {
      unread := b;
    }

    /** io.ReadFull: a short read fails after draining the buffer. */
    method ReadFull(n: nat) returns (r: Option<bytes>)
      modifies this
      ensures n <= |old(unread)| ==> r == Some(old(unread)[..n]) && unread == old(unread)[n..]
      ensures n > |old(unread)| ==> r == None && unread == []
    {
      if n <= |unread| {
        r, unread := Some(unread[..n]), unread[n..];
      } else {
        r, unread := None, [];
      }
    }
  }
}
