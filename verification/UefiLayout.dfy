/**
 Where the fields of UEFI structures stand in their bytes (attest/internal/events.go), for all
 bytes: what is accepted, and as what.
 */
module UefiLayout {
  import opened Arithmetic
  import opened Bytes
  import opened LogLayout
  import opened UefiEvents

  /** The 64-bit field at position i, least significant byte first. */
  function Long(b: bytes, i: nat): uint64
    requires i + 8 <= |b|
  {
    var low: int, high: int := Word(b, i), Word(b, i + 4);
    low + 0x1_0000_0000 * high
  }

  lemma LongAt(b: bytes, i: nat)
    requires i + 8 <= |b|
    ensures U64(b[i..i + 8]) == Long(b, i)
  {
    WordAt(b, i);
    WordAt(b, i + 4);
    assert b[i..i + 8] == b[i..i + 4] + b[i + 4..i + 4 + 4];
    U64Of(b[i..i + 4], b[i + 4..i + 4 + 4]);
  }

  /** An ASCII text in 16-bit units. */
  function Units16(s: string): (r: seq<uint16>)
    ensures |r| == |s|
  {
    seq(|s|, i requires 0 <= i < |s| => s[i] as int % 0x1_0000)
  }

  // ----- Variables -----

  lemma {:induction false} UnitsAre(n: nat, b: bytes)
    requires |b| == 2 * n
    ensures forall i | 0 <= i < n :: Uint16s(n, b)[i] == Half(b, 2 * i)
  {
    if n == 0 {
    } else {
      var more := b[2..];
      UnitsAre(n - 1, more);
      HalfAt(b, 0);
      assert b[..2] == b[0..2];
      forall i | 0 <= i < n ensures Uint16s(n, b)[i] == Half(b, 2 * i) {
        if i > 0 {
          assert Uint16s(n - 1, more)[i - 1] == Half(more, 2 * (i - 1));
        }
      }
    }
  }

  /** GUID, number of units, number of bytes, name and data; what follows is not looked at. */
  predicate VariableAt(b: bytes, v: Variable) {
    && |b| >= 32 && v.guid == b[..16]
    && Long(b, 16) == |v.name| <= 2048 && Long(b, 24) == |v.data| <= 1048576
    && 32 + 2 * |v.name| + |v.data| <= |b|
    && (forall i | 0 <= i < |v.name| :: v.name[i] == Half(b, 32 + 2 * i))
    && v.data == b[32 + 2 * |v.name|..32 + 2 * |v.name| + |v.data|]
  }

  lemma NameAt(b: bytes, n: nat)
    requires 32 + 2 * n <= |b|
    ensures forall i | 0 <= i < n :: Uint16s(n, b[32..][..2 * n])[i] == Half(b, 32 + 2 * i)
  {
    UnitsAre(n, b[32..][..2 * n]);
  }

  lemma VariableIff(b: bytes, v: Variable)
    ensures ParseVariable(b) == Some(v) <==> VariableAt(b, v)
  {
    if |b| >= 32 {
      LongAt(b, 16);
      LongAt(b, 24);
      var n, m := Long(b, 16), Long(b, 24);
      if 32 + 2 * n + m <= |b| {
        NameAt(b, n);
        assert b[32..][2 * n..2 * n + m] == b[32 + 2 * n..32 + 2 * n + m];
        if |v.name| == n && forall i | 0 <= i < n :: v.name[i] == Half(b, 32 + 2 * i) {
          assert v.name == Uint16s(n, b[32..][..2 * n]);
        }
      }
    }
  }

  // ----- Image loads and device paths -----

  lemma ImageLoadIff(b: bytes, path: bytes)
    ensures ParseImageLoad(b) == Some(path) <==>
              && |b| >= 32 && Long(b, 24) <= 2048 && 32 + Long(b, 24) <= |b|
              && path == b[32..32 + Long(b, 24)]
  {
    if |b| >= 32 {
      LongAt(b, 24);
    }
  }

  lemma ElementIff(b: bytes, e: PathElement, rest: bytes)
    ensures ParseElement(b) == Got(e, rest) <==>
              && |b| >= 4 && 4 <= Half(b, 2) <= 2048 && Half(b, 2) <= |b|
              && e == PathElement(b[0], b[1], b[4..Half(b, 2)]) && rest == b[Half(b, 2)..]
  {
    if |b| >= 4 {
      HalfAt(b, 2);
    }
  }

  /** Type, subtype, length of the whole element, data. */
  function ElementBytes(e: PathElement): bytes
    requires |e.data| <= 2044
  {
    [e.typ, e.subtype, (4 + |e.data|) % 256, (4 + |e.data|) / 256] + e.data
  }

  /** Elements that can be written, none of them an end marker. */
  predicate Writable(es: seq<PathElement>) {
    forall e | e in es :: e.typ != 0x7f && |e.data| <= 2044
  }

  function PathBytes(es: seq<PathElement>): bytes
    requires Writable(es)
  {
    if es == [] then [] else ElementBytes(es[0]) + PathBytes(es[1..])
  }

  /** Nothing, or an end marker that can be read, whatever follows it. */
  predicate Ends(b: bytes) {
    b == [] || (|b| >= 4 && b[0] == 0x7f && 4 <= Half(b, 2) <= 2048 && Half(b, 2) <= |b|)
  }

  lemma ElementRoundTrip(e: PathElement, rest: bytes)
    requires |e.data| <= 2044
    ensures ParseElement(ElementBytes(e) + rest) == Got(e, rest)
  {
    var b, n: int := ElementBytes(e) + rest, 4 + |e.data|;
    assert b[2] == n % 256 && b[3] == n / 256;
    assert n == n / 256 * 256 + n % 256;
    assert b[4..n] == e.data && b[n..] == rest;
    ElementIff(b, e, rest);
  }

  lemma ElementConsumed(b: bytes)
    requires ParseElement(b).Got?
    ensures var p := ParseElement(b); |p.value.data| <= 2044 && b == ElementBytes(p.value) + p.rest
  {
    var p := ParseElement(b);
    ElementIff(b, p.value, p.rest);
    var n: int := Half(b, 2);
    assert b == b[..4] + b[4..n] + b[n..];
    assert b[..4] == [b[0], b[1], b[2], b[3]];
  }

  /** The elements, one behind the other, up to an end marker or the end. */
  predicate PathAt(b: bytes, es: seq<PathElement>) {
    Writable(es) && PathBytes(es) <= b && Ends(b[|PathBytes(es)|..])
  }

  lemma {:induction false} PathIff(b: bytes, es: seq<PathElement>)
    ensures ParsePath(b) == Some(es) <==> PathAt(b, es)
    decreases |b|
  {
    if b == [] {
    } else if es == [] {
      EndsIff(b);
    } else {
      PathParsedMore(b, es);
      PathAtMore(b, es);
      if ParseElement(b).Got? {
        PathIff(ParseElement(b).rest, es[1..]);
      }
    }
  }

  lemma EndsIff(b: bytes)
    requires b != []
    ensures ParsePath(b) == Some([]) <==> Ends(b)
  {
    if ParseElement(b).Got? {
      ElementIff(b, ParseElement(b).value, ParseElement(b).rest);
    }
    if Ends(b) {
      ElementIff(b, PathElement(b[0], b[1], b[4..Half(b, 2)]), b[Half(b, 2)..]);
    }
    var p := ParseElement(b);
    if p.Got? && p.value.typ != END_MARKER && ParsePath(p.rest).Some? {
      assert ParsePath(b).value == [p.value] + ParsePath(p.rest).value;
    }
  }

  /** The first element is read, is no end marker, and the others are in the rest. */
  predicate First(b: bytes, e: PathElement) {
    ParseElement(b).Got? && ParseElement(b).value == e && e.typ != 0x7f
  }

  lemma PathParsedMore(b: bytes, es: seq<PathElement>)
    requires b != [] && es != []
    ensures ParsePath(b) == Some(es) <==> First(b, es[0]) && ParsePath(ParseElement(b).rest) == Some(es[1..])
  {
    assert es == [es[0]] + es[1..];
    if First(b, es[0]) && ParsePath(ParseElement(b).rest).Some? {
      var more := ParsePath(ParseElement(b).rest).value;
      assert ([es[0]] + more)[1..] == more;
    }
  }

  lemma PathAtMore(b: bytes, es: seq<PathElement>)
    requires es != []
    ensures PathAt(b, es) <==> First(b, es[0]) && PathAt(ParseElement(b).rest, es[1..])
  {
    assert es == [es[0]] + es[1..];
    if PathAt(b, es) {
      var n := |ElementBytes(es[0])|;
      assert PathBytes(es) == ElementBytes(es[0]) + PathBytes(es[1..]);
      assert b == ElementBytes(es[0]) + b[n..];
      ElementRoundTrip(es[0], b[n..]);
      assert PathBytes(es[1..]) == PathBytes(es)[n..] <= b[n..];
      assert b[n..][|PathBytes(es[1..])|..] == b[|PathBytes(es)|..];
    }
    if First(b, es[0]) && PathAt(ParseElement(b).rest, es[1..]) {
      ElementConsumed(b);
      var rest := ParseElement(b).rest;
      assert rest == PathBytes(es[1..]) + rest[|PathBytes(es[1..])|..];
      assert b[|PathBytes(es)|..] == rest[|PathBytes(es[1..])|..];
    }
  }

  // ----- Signature lists and authorities -----

  /** A GUID as it is written: three little-endian numbers and eight bytes. */
  predicate IsGuid(g: bytes, a: uint32, b: uint16, c: uint16, d: bytes) {
    |g| == 16 && Word(g, 0) == a && Half(g, 4) == b && Half(g, 6) == c && g[8..] == d
  }

  lemma SameWord(g: bytes, h: bytes)
    requires |g| >= 4 && |h| >= 4 && Word(g, 0) == Word(h, 0)
    ensures g[..4] == h[..4]
  {
    WordAt(g, 0);
    WordAt(h, 0);
    PutU32(g[0..4]);
    PutU32(h[0..4]);
  }

  lemma SameHalf(g: bytes, h: bytes, i: nat)
    requires i + 2 <= |g| && i + 2 <= |h| && Half(g, i) == Half(h, i)
    ensures g[i..i + 2] == h[i..i + 2]
  {
  }

  lemma SameNumbers(g: bytes, h: bytes)
    requires |g| == |h| == 16 && Word(g, 0) == Word(h, 0) && Half(g, 4) == Half(h, 4) && Half(g, 6) == Half(h, 6)
    requires g[8..] == h[8..]
    ensures g == h
  {
    SameWord(g, h);
    SameHalf(g, h, 4);
    SameHalf(g, h, 6);
    assert g == g[..4] + g[4..6] + g[6..8] + g[8..] && h == h[..4] + h[4..6] + h[6..8] + h[8..];
  }

  lemma X509Guid(g: bytes)
    ensures g == X509_GUID <==> IsGuid(g, 0xa5c059a1, 0x94e4, 0x4aa7, [0x87, 0xb5, 0xab, 0x15, 0x5c, 0x2b, 0xf0, 0x72])
  {
    if IsGuid(g, 0xa5c059a1, 0x94e4, 0x4aa7, [0x87, 0xb5, 0xab, 0x15, 0x5c, 0x2b, 0xf0, 0x72]) {
      SameNumbers(g, X509_GUID);
    }
  }

  lemma Sha256Guid(g: bytes)
    ensures g == SHA256_GUID <==> IsGuid(g, 0xc1c41626, 0x504c, 0x4092, [0xac, 0xa9, 0x41, 0xf9, 0x36, 0x93, 0x43, 0x28])
  {
    if IsGuid(g, 0xc1c41626, 0x504c, 0x4092, [0xac, 0xa9, 0x41, 0xf9, 0x36, 0x93, 0x43, 0x28]) {
      SameNumbers(g, SHA256_GUID);
    }
  }

  lemma ShimGuid(g: bytes)
    ensures g == SHIM_LOCK_GUID <==> IsGuid(g, 0x605dab50, 0xe046, 0x4300, [0xab, 0xb6, 0x3d, 0xd8, 0x10, 0xdd, 0x8b, 0x23])
  {
    if IsGuid(g, 0x605dab50, 0xe046, 0x4300, [0xab, 0xb6, 0x3d, 0xd8, 0x10, 0xdd, 0x8b, 0x23]) {
      SameNumbers(g, SHIM_LOCK_GUID);
    }
  }

  lemma ListHeaderAt(guid: bytes, listSize: uint32, headerSize: uint32, size: uint32)
    requires |guid| == 16
    ensures var b := ListHeader(guid, listSize, headerSize, size);
            |b| == 28 && b[..16] == guid && Word(b, 16) == listSize && Word(b, 20) == headerSize && Word(b, 24) == size
  {
    var b := ListHeader(guid, listSize, headerSize, size);
    WordAt(b, 16);
    WordAt(b, 20);
    WordAt(b, 24);
    assert b[16..20] == Put32(listSize) && b[20..24] == Put32(headerSize) && b[24..28] == Put32(size);
  }

  /** Type, list size, header size and signature size, then the header and the signatures. */
  lemma ListAt(l: SignatureList)
    requires 28 + |l.header| + |EntryBytes(l.entries)| <= 1048576
    ensures var b := ListBytes(l);
            && |b| == 28 + |l.header| + |EntryBytes(l.entries)|
            && b[..16] == (if l.x509 then X509_GUID else SHA256_GUID)
            && Word(b, 16) == |b| && Word(b, 20) == |l.header| && Word(b, 24) == l.size
            && b[28..] == l.header + EntryBytes(l.entries)
  {
    var header := ListHeader(Guid(l.x509), 28 + |Body(l)|, |l.header|, l.size);
    ListHeaderAt(Guid(l.x509), 28 + |Body(l)|, |l.header|, l.size);
    assert ListBytes(l) == [] + header + Body(l);
    WordWithin([], header, Body(l), 16);
    WordWithin([], header, Body(l), 20);
    WordWithin([], header, Body(l), 24);
  }

  /** Entries are read as certificates or hashes in their order. */
  lemma {:induction false} ContentsAre(dec: Decoders, x509: bool, entries: seq<Entry>, i: nat)
    requires i < |entries| && (x509 ==> forall e | e in entries :: dec.parseCert(e.data).Some?)
    ensures var s := Contents(dec, x509, entries);
            if x509 then |s.certs| == |entries| && s.hashes == [] && Some(s.certs[i]) == dec.parseCert(entries[i].data)
            else |s.hashes| == |entries| && s.certs == [] && s.hashes[i] == entries[i].data
  {
    assert entries[0] in entries;
    if |entries| == 1 {
    } else {
      assert forall e | e in entries[1..] :: e in entries;
      ContentsAre(dec, x509, entries[1..], if i == 0 then 0 else i - 1);
    }
  }

  lemma OneEntry(dec: Decoders, x509: bool, e: Entry)
    ensures EntryBytes([e]) == e.owner + e.data
    ensures !x509 ==> Contents(dec, x509, [e]) == Signatures([], [e.data])
    ensures x509 && dec.parseCert(e.data).Some? ==>
              Contents(dec, x509, [e]) == Signatures([dec.parseCert(e.data).value], [])
  {
  }

  lemma OneEntryList(dec: Decoders, x509: bool, e: Entry)
    requires |e.owner| == 16 && |e.data| <= 1000 && (x509 ==> dec.parseCert(e.data).Some?)
    ensures ParseSignatureList(dec, ListBytes(SignatureList(x509, [], 16 + |e.data|, [e]))) ==
            Some(if x509 then Signatures([dec.parseCert(e.data).value], []) else Signatures([], [e.data]))
  {
    var l := SignatureList(x509, [], 16 + |e.data|, [e]);
    OneEntry(dec, x509, e);
    ListReadBackIff(dec, l, []);
    assert ListBytes(l) + [] == ListBytes(l);
    OneListRead(dec, ListBytes(l), Contents(dec, x509, [e]));
  }

  /** A list of one SHA256 hash. */
  lemma HashList(dec: Decoders, owner: bytes, h: bytes)
    requires |owner| == 16 && |h| == 32
    ensures ParseSignatureList(dec, SHA256_GUID + [76, 0, 0, 0] + [0, 0, 0, 0] + [48, 0, 0, 0] + (owner + h)) ==
            Some(Signatures([], [h]))
  {
    Put32Of(76, 0, 0, 0);
    Put32Of(0, 0, 0, 0);
    Put32Of(48, 0, 0, 0);
    OneEntry(dec, false, Entry(owner, h));
    OneEntryList(dec, false, Entry(owner, h));
    assert [] + (owner + h) == owner + h;
  }

  /** A list of one certificate of 20 bytes. */
  lemma CertificateList(dec: Decoders, owner: bytes, c: bytes)
    requires |owner| == 16 && |c| == 20 && dec.parseCert(c).Some?
    ensures ParseSignatureList(dec, X509_GUID + [64, 0, 0, 0] + [0, 0, 0, 0] + [36, 0, 0, 0] + (owner + c)) ==
            Some(Signatures([dec.parseCert(c).value], []))
  {
    Put32Of(64, 0, 0, 0);
    Put32Of(0, 0, 0, 0);
    Put32Of(36, 0, 0, 0);
    OneEntry(dec, true, Entry(owner, c));
    OneEntryList(dec, true, Entry(owner, c));
    assert [] + (owner + c) == owner + c;
  }

  /** Lists of other types, or announcing more than a MiB, are refused; fewer bytes than a header are no lists. */
  lemma ListRefused(dec: Decoders, b: bytes)
    ensures |b| < 28 ==> ParseSignatureList(dec, b) == Some(Signatures([], []))
    ensures |b| >= 28 && ParseSignatureList(dec, b).Some? ==>
              && Word(b, 16) <= 1048576 && Word(b, 20) <= 1048576
              && (b[..16] == X509_GUID || b[..16] == SHA256_GUID)
  {
    if |b| >= 28 {
      WordAt(b, 16);
      WordAt(b, 20);
    }
  }

  /** Two shim variables carry no certificates; else the data is an owner and a certificate, or a certificate alone. */
  predicate AuthorityOfData(dec: Decoders, v: Variable, certs: seq<Certificate>, missingGUID: bool) {
    if IsGuid(v.guid, 0x605dab50, 0xe046, 0x4300, [0xab, 0xb6, 0x3d, 0xd8, 0x10, 0xdd, 0x8b, 0x23]) &&
       (v.name == Units16("SbatLevel") || v.name == Units16("MokListTrusted"))
    then certs == [] && !missingGUID
    else
      && |v.data| >= 16 && |certs| == 1
      && if dec.parseCert(v.data[16..]).Some? then dec.parseCert(v.data[16..]) == Some(certs[0]) && !missingGUID
         else dec.parseCert(v.data) == Some(certs[0]) && missingGUID
  }

  lemma AuthorityIff(dec: Decoders, v: Variable, certs: seq<Certificate>, missingGUID: bool)
    ensures ParseAuthority(dec, v) == Authority(certs, missingGUID) <==> AuthorityOfData(dec, v, certs, missingGUID)
  {
    ShimGuid(v.guid);
    assert Units16("SbatLevel") == SBAT_LEVEL;
    assert Units16("MokListTrusted") == MOK_LIST_TRUSTED;
  }
}
