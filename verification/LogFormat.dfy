/**
 The two binary event formats of TCG measurement logs, sections 5.1 and 5.2 of the
 TCG EFI Protocol Specification, and the spec ID event that switches between them
 (attest/eventlog.go: parseSpecIDEvent, parseRawEvent, parseRawEvent2).
 */
module LogFormat {
  import opened Bytes
  import opened Hashing
  import opened Replay

  datatype SpecAlg = SpecAlg(id: uint16, size: uint16)

  /** A digest and an event as they stand in the log, before algorithm IDs are narrowed. */
  datatype WireDigest = WireDigest(algID: uint16, data: bytes)
  datatype WireEvent = WireEvent(index: uint32, typ: uint32, digests: seq<WireDigest>, data: bytes)

  // ----- Grammar -----

  /** Event data preceded by its length; the length is compared with a 32-bit count of the bytes left. */
  function ParseData(b: bytes): (p: Parsed<bytes>)
    ensures p.Got? ==> |b| == 4 + |p.value| + |p.rest| && |p.value| < TWO_32
  {
    if |b| < 4 then Fail
    else
      var size, rest := U32(b[..4]), b[4..];
      if size > Narrow32(|rest|) then Fail else Got(rest[..size], rest[size..])
  }

  /** Section 5.1: PCR index, type, SHA1 digest, data. */
  function ParseEvent1(b: bytes): (p: Parsed<RawEvent>)
    ensures p.Got? ==> |p.rest| < |b|
  {
    if |b| < 32 then Fail
    else
      match ParseData(b[28..])
      case Fail => Fail
      case Got(data, rest) =>
        Got(RawEvent(0, U32(b[..4]), U32(b[4..8]), data, [Digest(SHA1, b[8..28])]), rest)
  }

  /** The size of the last entry for an algorithm; zero when there is none. */
  function DigestSize(algs: seq<SpecAlg>, id: uint16): uint16 {
    if algs == [] then 0
    else if algs[|algs| - 1].id == id then algs[|algs| - 1].size
    else DigestSize(algs[..|algs| - 1], id)
  }

  /** Every entry for the algorithm is tried against the bytes left, not only the last. */
  predicate Fits(algs: seq<SpecAlg>, id: uint16, left: nat) {
    forall a | a in algs && a.id == id :: a.size <= left
  }

  lemma DigestSizeListed(algs: seq<SpecAlg>, id: uint16)
    ensures DigestSize(algs, id) > 0 ==> SpecAlg(id, DigestSize(algs, id)) in algs
  {
  }

  function ParseDigest(algs: seq<SpecAlg>, b: bytes): (p: Parsed<WireDigest>)
    ensures p.Got? ==> |p.rest| < |b|
  {
    if |b| < 2 then Fail
    else
      var id, rest := U16(b[..2]), b[2..];
      var size := DigestSize(algs, id);
      DigestSizeListed(algs, id);
      if !Fits(algs, id, |rest|) || size == 0 then Fail
      else Got(WireDigest(id, rest[..size]), rest[size..])
  }

  function ParseDigests(algs: seq<SpecAlg>, n: nat, b: bytes): (p: Parsed<seq<WireDigest>>)
    ensures p.Got? ==> |p.rest| <= |b| && |p.value| == n
  {
    if n == 0 then Got([], b)
    else
      match ParseDigest(algs, b)
      case Fail => Fail
      case Got(d, rest) => After([d], ParseDigests(algs, n - 1, rest))
  }

  /** A parse whose value is prefixed by what was parsed before it. */
  function After<T>(before: seq<T>, p: Parsed<seq<T>>): Parsed<seq<T>> {
    match p
    case Fail => Fail
    case Got(value, rest) => Got(before + value, rest)
  }

  /** Section 5.2: PCR index, type, count and digests, data. */
  function ParseWire(algs: seq<SpecAlg>, b: bytes): (p: Parsed<WireEvent>)
    ensures p.Got? ==> |p.rest| < |b|
    ensures p.Got? ==> |p.value.digests| < TWO_32 && |p.value.data| < TWO_32
  {
    if |b| < 12 then Fail
    else
      match ParseDigests(algs, U32(b[8..12]), b[12..])
      case Fail => Fail
      case Got(digests, more) =>
        match ParseData(more)
        case Fail => Fail
        case Got(data, rest) => Got(WireEvent(U32(b[..4]), U32(b[4..8]), digests, data), rest)
  }

  /** Algorithm IDs are narrowed to eight bits before the hash is looked up. */
  function RawDigest(d: WireDigest): Digest {
    Digest(CryptoHashOf(d.algID % 0x100), d.data)
  }

  function RawDigests(ds: seq<WireDigest>): (r: seq<Digest>)
    ensures |r| == |ds|
  {
    seq(|ds|, i requires 0 <= i < |ds| => RawDigest(ds[i]))
  }

  function Raw(w: WireEvent): RawEvent {
    RawEvent(0, w.index, w.typ, w.data, RawDigests(w.digests))
  }

  /** One event, in the format the spec ID event calls for. */
  function ParseEvent(spec: Option<seq<SpecAlg>>, b: bytes): (p: Parsed<RawEvent>)
    ensures p.Got? ==> |p.rest| < |b|
  {
    match spec
    case None => ParseEvent1(b)
    case Some(algs) =>
      match ParseWire(algs, b)
      case Fail => Fail
      case Got(w, rest) => Got(Raw(w), rest)
  }

  // ----- The spec ID event -----

  const SPEC_ID_SIGNATURE: bytes :=
    [0x53, 0x70, 0x65, 0x63, 0x20, 0x49, 0x44, 0x20, 0x45, 0x76, 0x65, 0x6e, 0x74, 0x30, 0x33, 0x00]
  const SPEC_ID_HEADER_SIZE := 28

  function ParseSpecAlgs(n: nat, b: bytes): Parsed<seq<SpecAlg>> {
    if n == 0 then Got([], b)
    else if |b| < 4 then Fail
    else After([SpecAlg(U16(b[..2]), U16(b[2..4]))], ParseSpecAlgs(n - 1, b[4..]))
  }

  /** Signature, platform class, minor and major version, errata, uintn size, algorithms, vendor data. */
  function ParseSpecID(b: bytes): Option<seq<SpecAlg>> {
    if |b| < SPEC_ID_HEADER_SIZE || b[..16] != SPEC_ID_SIGNATURE || b[21] != 2 || b[20] != 0 then None
    else
      match ParseSpecAlgs(U32(b[24..28]), b[28..])
      case Fail => None
      case Got(algs, rest) => if |rest| < 1 || |rest| - 1 != rest[0] then None else Some(algs)
  }

  // ----- The reading loops -----

  method ReadData(r: Buffer) returns (data: Option<bytes>)
    modifies r
    ensures match ParseData(old(r.unread))
            case Fail => data == None
            case Got(v, rest) => data == Some(v) && r.unread == rest
  {
    var size := r.ReadFull(4);
    if size == None || U32(size.value) > Narrow32(|r.unread|) {
      return None;
    }
    data := r.ReadFull(U32(size.value));
  }

  method ParseRawEvent(r: Buffer) returns (event: Option<RawEvent>)
    modifies r
    ensures match ParseEvent1(old(r.unread))
            case Fail => event == None
            case Got(v, rest) => event == Some(v) && r.unread == rest
  {
    ghost var b := r.unread;
    var h := r.ReadFull(28);
    if h == None {
      return None;
    }
    assert h.value[..4] == b[..4] && h.value[4..8] == b[4..8] && h.value[8..] == b[8..28];
    var data := ReadData(r);
    if data == None {
      return None;
    }
    event := Some(RawEvent(0, U32(h.value[..4]), U32(h.value[4..8]), data.value, [Digest(SHA1, h.value[8..])]));
  }

  method ParseRawDigest(r: Buffer, algs: seq<SpecAlg>) returns (digest: Option<Digest>)
    modifies r
    ensures match ParseDigest(algs, old(r.unread))
            case Fail => digest == None
            case Got(v, rest) => digest == Some(RawDigest(v)) && r.unread == rest
  {
    var algID := r.ReadFull(2);
    if algID == None {
      return None;
    }
    var id := U16(algID.value);
    var size: uint16, hash: LogHash := 0, NoHash;
    var i := 0;
    while i < |algs|
      invariant 0 <= i <= |algs|
      invariant r.unread == old(r.unread)[2..]
      invariant Fits(algs[..i], id, |r.unread|)
      invariant size == DigestSize(algs[..i], id)
      invariant size > 0 ==> hash == CryptoHashOf(id % 0x100)
    {
      TakeOneMore(algs, i);
      if algs[i].id == id {
        if |r.unread| < algs[i].size {
          assert algs[i] in algs;
          return None;
        }
        size, hash := algs[i].size, CryptoHashOf(id % 0x100);
      }
      i := i + 1;
    }
    assert algs[..i] == algs;
    DigestSizeListed(algs, id);
    if size == 0 {
      return None;
    }
    var data := r.ReadFull(size);
    digest := Some(Digest(hash, data.value));
  }

  lemma AfterNothing<T>(p: Parsed<seq<T>>, a: seq<T>, rest: bytes)
    ensures After([], p) == p
    ensures After(a, Got([], rest)) == Got(a, rest)
  {
    assert a + [] == a;
    assert p.Got? ==> [] + p.value == p.value;
  }

  lemma AfterAfter<T>(a: seq<T>, b: seq<T>, p: Parsed<seq<T>>)
    ensures After(a, After(b, p)) == After(a + b, p)
  {
    if p.Got? {
      assert a + (b + p.value) == a + b + p.value;
    }
  }

  method ParseRawDigests(r: Buffer, algs: seq<SpecAlg>, n: uint32) returns (digests: Option<seq<Digest>>)
    modifies r
    ensures match ParseDigests(algs, n, old(r.unread))
            case Fail => digests == None
            case Got(v, rest) => digests == Some(RawDigests(v)) && r.unread == rest
  {
    var ds: seq<Digest>, i := [], 0;
    ghost var wire: seq<WireDigest> := [];
    AfterNothing(ParseDigests(algs, n, r.unread), wire, []);
    while i < n
      invariant 0 <= i <= n
      invariant ParseDigests(algs, n, old(r.unread)) == After(wire, ParseDigests(algs, n - i, r.unread))
      invariant ds == RawDigests(wire)
    {
      ghost var p := ParseDigest(algs, r.unread);
      var d := ParseRawDigest(r, algs);
      if d == None {
        return None;
      }
      AfterAfter(wire, [p.value], ParseDigests(algs, n - i - 1, p.rest));
      wire := wire + [p.value];
      ds := ds + [d.value];
      i := i + 1;
    }
    AfterNothing(Fail, wire, r.unread);
    digests := Some(ds);
  }

  method ParseRawEvent2(r: Buffer, algs: seq<SpecAlg>) returns (event: Option<RawEvent>)
    modifies r
    ensures match ParseEvent(Some(algs), old(r.unread))
            case Fail => event == None
            case Got(v, rest) => event == Some(v) && r.unread == rest
  {
    ghost var b := r.unread;
    var h := r.ReadFull(8);
    if h == None {
      return None;
    }
    assert h.value[..4] == b[..4] && h.value[4..] == b[4..8];
    var numDigests := r.ReadFull(4);
    if numDigests == None {
      return None;
    }
    assert numDigests.value == b[8..12] && r.unread == b[12..];
    var digests := ParseRawDigests(r, algs, U32(numDigests.value));
    if digests == None {
      return None;
    }
    var data := ReadData(r);
    if data == None {
      return None;
    }
    event := Some(RawEvent(0, U32(h.value[..4]), U32(h.value[4..]), data.value, digests.value));
  }

  method ParseSpecIDEvent(b: bytes) returns (spec: Option<seq<SpecAlg>>)
    ensures spec == ParseSpecID(b)
  {
    var r := new Buffer(b);
    var h := r.ReadFull(SPEC_ID_HEADER_SIZE);
    if h == None {
      return None;
    }
    assert h.value[..16] == b[..16] && h.value[24..28] == b[24..28];
    if h.value[..16] != SPEC_ID_SIGNATURE || h.value[21] != 2 || h.value[20] != 0 {
      return None;
    }
    var n, algs: seq<SpecAlg>, i := U32(h.value[24..28]), [], 0;
    AfterNothing(ParseSpecAlgs(n, r.unread), algs, []);
    while i < n
      invariant 0 <= i <= n
      invariant ParseSpecAlgs(n, b[28..]) == After(algs, ParseSpecAlgs(n - i, r.unread))
    {
      ghost var u := r.unread;
      var alg := r.ReadFull(4);
      if alg == None {
        return None;
      }
      assert alg.value[..2] == u[..2] && alg.value[2..4] == u[2..4];
      var a := SpecAlg(U16(alg.value[..2]), U16(alg.value[2..4]));
      AfterAfter(algs, [a], ParseSpecAlgs(n - i - 1, u[4..]));
      algs := algs + [a];
      i := i + 1;
    }
    AfterNothing(Fail, algs, r.unread);
    var vendorInfoSize := r.ReadFull(1);
    if vendorInfoSize == None || |r.unread| != vendorInfoSize.value[0] {
      return None;
    }
    spec := Some(algs);
  }
}
