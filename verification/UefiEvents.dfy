/**
 Structures inside UEFI events (attest/internal/events.go): variables, signature lists
 (section 31.4.1 of the UEFI specification), authorities and device paths.
 */
module UefiEvents {
  import opened Arithmetic
  import opened Bytes

  const MAX_NAME_LEN := 2048
  const MAX_DATA_LEN := 1024 * 1024

  const SEPARATOR: uint32 := 0x00000004
  const EVENT_TAG: uint32 := 0x00000006
  const EFI_VARIABLE_DRIVER_CONFIG: uint32 := 0x80000001
  const EFI_BOOT_SERVICES_DRIVER: uint32 := 0x80000004
  const EFI_ACTION: uint32 := 0x80000007
  const EFI_VARIABLE_AUTHORITY: uint32 := 0x800000e0

  /** The event types with a name; the range check before the lookup never fails. */
  predicate Known(typ: uint32) {
    typ <= 0x12 || 0x80000000 <= typ <= 0x80000009 || typ == 0x80000010 || typ == EFI_VARIABLE_AUTHORITY
  }

  datatype Certificate = Certificate(raw: bytes)

  /** X.509 parsing and UTF-16 decoding, of which nothing is assumed. */
  datatype Decoders = Decoders(parseCert: bytes -> Option<Certificate>, utf16: seq<uint16> -> string)

  // ----- UEFI variables -----

  datatype Variable = Variable(guid: bytes, name: seq<uint16>, data: bytes)

  function Uint16s(n: nat, b: bytes): (r: seq<uint16>)
    requires |b| == 2 * n
    ensures |r| == n
  {
    if n == 0 then [] else [U16(b[..2])] + Uint16s(n - 1, b[2..])
  }

  /** GUID, name length, data length, name, data; what follows is ignored. */
  function ParseVariable(b: bytes): Option<Variable> {
    if |b| < 32 then None
    else
      var n, m, rest := U64(b[16..24]), U64(b[24..32]), b[32..];
      if n > MAX_NAME_LEN || |rest| < 2 * n || m > MAX_DATA_LEN || |rest| - 2 * n < m then None
      else Some(Variable(b[..16], Uint16s(n, rest[..2 * n]), rest[2 * n..2 * n + m]))
  }

  function NameBytes(name: seq<uint16>): (b: bytes)
    ensures |b| == 2 * |name|
  {
    if name == [] then [] else Put16(name[0]) + NameBytes(name[1..])
  }

  /** A variable as it is written. */
  function VariableBytes(v: Variable): bytes {
    v.guid + ToLittleEndian(|v.name|, 8) + ToLittleEndian(|v.data|, 8) + (NameBytes(v.name) + v.data)
  }

  lemma {:induction false} NameRoundTrip(name: seq<uint16>)
    ensures Uint16s(|name|, NameBytes(name)) == name
  {
    if name == [] {
    } else {
      NameRoundTrip(name[1..]);
      assert NameBytes(name)[..2] == Put16(name[0]) && NameBytes(name)[2..] == NameBytes(name[1..]);
    }
  }

  lemma VariableFields(guid: bytes, n: bytes, m: bytes, rest: bytes)
    requires |guid| == 16 && |n| == 8 && |m| == 8
    ensures var b := guid + n + m + rest;
            |b| == 32 + |rest| && b[..16] == guid && b[16..24] == n && b[24..32] == m && b[32..] == rest
  {
  }

  lemma FieldsParse(b: bytes, n: nat, name: bytes, data: bytes)
    requires |b| >= 32 && |name| == 2 * n && b[32..] == name + data
    requires U64(b[16..24]) == n <= MAX_NAME_LEN && U64(b[24..32]) == |data| <= MAX_DATA_LEN
    ensures ParseVariable(b) == Some(Variable(b[..16], Uint16s(n, name), data))
  {
    assert (name + data)[..2 * n] == name && (name + data)[2 * n..2 * n + |data|] == data;
  }

  lemma LengthReadBack(k: nat)
    requires k <= MAX_DATA_LEN
    ensures |ToLittleEndian(k, 8)| == 8 && U64(ToLittleEndian(k, 8)) == k
  {
    Pow256Values();
    DecodeEncode(k, 8);
  }

  /** Parsing a written variable of allowed sizes gives it back. */
  lemma VariableRoundTrip(v: Variable)
    requires |v.guid| == 16 && |v.name| <= MAX_NAME_LEN && |v.data| <= MAX_DATA_LEN
    ensures ParseVariable(VariableBytes(v)) == Some(v)
  {
    LengthReadBack(|v.name|);
    LengthReadBack(|v.data|);
    VariableFields(v.guid, ToLittleEndian(|v.name|, 8), ToLittleEndian(|v.data|, 8), NameBytes(v.name) + v.data);
    FieldsParse(VariableBytes(v), |v.name|, NameBytes(v.name), v.data);
    NameRoundTrip(v.name);
  }

  method ReadName(r: Buffer, n: nat) returns (name: Option<seq<uint16>>)
    modifies r
    ensures name.Some? <==> 2 * n <= |old(r.unread)|
    ensures name.Some? ==> name.value == Uint16s(n, old(r.unread)[..2 * n]) && r.unread == old(r.unread)[2 * n..]
  {
    var units: seq<uint16>, i := [], 0;
    ghost var b := r.unread;
    while i < n
      invariant 0 <= i <= n
      invariant 2 * i <= |b| && r.unread == b[2 * i..]
      invariant 2 * n <= |b| ==> units + Uint16s(n - i, b[2 * i..2 * n]) == Uint16s(n, b[..2 * n])
    {
      var u := r.ReadFull(2);
      if u == None {
        return None;
      }
      if 2 * n <= |b| {
        assert b[2 * i..2 * n][..2] == u.value && b[2 * i..2 * n][2..] == b[2 * (i + 1)..2 * n];
      }
      units := units + [U16(u.value)];
      i := i + 1;
    }
    name := Some(units);
  }

  method ParseUEFIVariableData(b: bytes) returns (v: Option<Variable>)
    ensures v == ParseVariable(b)
  {
    var r := new Buffer(b);
    var header := r.ReadFull(32);
    if header == None {
      return None;
    }
    assert header.value[16..24] == b[16..24] && header.value[24..32] == b[24..32] && header.value[..16] == b[..16];
    var n, m := U64(header.value[16..24]), U64(header.value[24..32]);
    if n > MAX_NAME_LEN {
      return None;
    }
    var name := ReadName(r, n);
    if name == None || m > MAX_DATA_LEN {
      return None;
    }
    var data := r.ReadFull(m);
    if data == None {
      return None;
    }
    assert data.value == b[32..][2 * n..2 * n + m];
    v := Some(Variable(header.value[..16], name.value, data.value));
  }

  // ----- Signature lists -----

  const SHA256_GUID: bytes :=
    [0x26, 0x16, 0xc4, 0xc1, 0x4c, 0x50, 0x92, 0x40, 0xac, 0xa9, 0x41, 0xf9, 0x36, 0x93, 0x43, 0x28]
  const X509_GUID: bytes :=
    [0xa1, 0x59, 0xc0, 0xa5, 0xe4, 0x94, 0xa7, 0x4a, 0x87, 0xb5, 0xab, 0x15, 0x5c, 0x2b, 0xf0, 0x72]

  datatype Signatures = Signatures(certs: seq<Certificate>, hashes: seq<bytes>) {
    function Plus(more: Signatures): Signatures {
      Signatures(certs + more.certs, hashes + more.hashes)
    }

    predicate Empty() {
      certs == [] && hashes == []
    }

    function Count(): nat {
      |certs| + |hashes|
    }
  }

  const NO_SIGNATURES := Signatures([], [])

  /** One signature: the certificate or hash behind the owner's GUID. */
  function Signature(dec: Decoders, x509: bool, data: bytes): Option<Signatures> {
    if !x509 then Some(Signatures([], [data]))
    else
      match dec.parseCert(data)
      case None => None
      case Some(cert) => Some(Signatures([cert], []))
  }

  function Behind(first: Signatures, p: Parsed<Signatures>): Parsed<Signatures> {
    match p
    case Fail => Fail
    case Got(more, rest) => Got(first.Plus(more), rest)
  }

  /** Owner GUID and signature; a signature size below 16 wraps around. */
  function ParseEntry(dec: Decoders, x509: bool, size: uint32, b: bytes): (p: Parsed<Signatures>)
    ensures p.Got? ==> |p.rest| + 16 <= |b| && p.value.Count() == 1
  {
    var n := Narrow32(size - 16);
    if |b| < 16 + n then Fail
    else
      match Signature(dec, x509, b[16..16 + n])
      case None => Fail
      case Some(s) => Got(s, b[16 + n..])
  }

  /** The signatures of one list, up to the given offset compared on 32 bits. */
  function ParseEntries(dec: Decoders, x509: bool, limit: uint32, size: uint32, offset: nat, b: bytes):
    (p: Parsed<Signatures>)
    ensures p.Got? ==> |p.rest| + 16 * p.value.Count() <= |b|
    decreases |b|
  {
    if Narrow32(offset) >= limit then Got(NO_SIGNATURES, b)
    else
      match ParseEntry(dec, x509, size, b)
      case Fail => Fail
      case Got(s, rest) => Behind(s, ParseEntries(dec, x509, limit, size, offset + size, rest))
  }

  /** The two handled signature types: whether a list holds certificates or hashes. */
  function ListKind(guid: bytes): Option<bool> {
    if guid == X509_GUID then Some(true) else if guid == SHA256_GUID then Some(false) else None
  }

  /** The header's size field is bounded but its bytes are not skipped; a list size below 28 wraps around. */
  function ParseList(dec: Decoders, b: bytes): (p: Parsed<Signatures>)
    ensures p.Got? ==> |p.rest| + 28 + 16 * p.value.Count() <= |b|
  {
    if |b| < 28 then Fail
    else
      var listSize, headerSize, size, kind := U32(b[16..20]), U32(b[20..24]), U32(b[24..28]), ListKind(b[..16]);
      if headerSize > MAX_DATA_LEN || listSize > MAX_DATA_LEN || kind == None then Fail
      else ParseEntries(dec, kind.value, Narrow32(listSize - 28), size, 0, b[28..])
  }

  function ParseLists(dec: Decoders, b: bytes): (p: Parsed<Signatures>)
    ensures p.Got? ==> 16 * p.value.Count() <= |b|
    decreases |b|
  {
    if b == [] then Got(NO_SIGNATURES, [])
    else
      match ParseList(dec, b)
      case Fail => Fail
      case Got(s, rest) => Behind(s, ParseLists(dec, rest))
  }

  function ParseSignatureList(dec: Decoders, b: bytes): (s: Option<Signatures>)
    ensures s.Some? ==> 16 * s.value.Count() <= |b|
  {
    if |b| < 28 then Some(NO_SIGNATURES)
    else
      match ParseLists(dec, b)
      case Fail => None
      case Got(s, _) => Some(s)
  }

  lemma BehindBehind(a: Signatures, b: Signatures, p: Parsed<Signatures>)
    ensures Behind(a, Behind(b, p)) == Behind(a.Plus(b), p)
    ensures Behind(NO_SIGNATURES, p) == p
    ensures a.Plus(NO_SIGNATURES) == a
  {
    if p.Got? {
      assert a.certs + (b.certs + p.value.certs) == a.certs + b.certs + p.value.certs;
      assert a.hashes + (b.hashes + p.value.hashes) == a.hashes + b.hashes + p.value.hashes;
      assert NO_SIGNATURES.Plus(p.value) == p.value;
    }
  }

  method ReadEntry(dec: Decoders, r: Buffer, x509: bool, size: uint32) returns (s: Option<Signatures>)
    modifies r
    ensures match ParseEntry(dec, x509, size, old(r.unread))
            case Fail => s == None
            case Got(v, rest) => s == Some(v) && r.unread == rest
  {
    ghost var b := r.unread;
    var owner := r.ReadFull(16);
    if owner == None {
      return None;
    }
    var data := r.ReadFull(Narrow32(size - 16));
    if data == None {
      return None;
    }
    assert data.value == b[16..16 + Narrow32(size - 16)];
    s := Signature(dec, x509, data.value);
  }

  lemma EntriesStep(dec: Decoders, x509: bool, limit: uint32, size: uint32, offset: nat, b: bytes, acc: Signatures)
    requires Narrow32(offset) < limit
    ensures match ParseEntry(dec, x509, size, b)
            case Fail => Behind(acc, ParseEntries(dec, x509, limit, size, offset, b)) == Fail
            case Got(s, rest) =>
              Behind(acc, ParseEntries(dec, x509, limit, size, offset, b)) ==
              Behind(acc.Plus(s), ParseEntries(dec, x509, limit, size, offset + size, rest))
  {
    var one := ParseEntry(dec, x509, size, b);
    if one.Got? {
      BehindBehind(acc, one.value, ParseEntries(dec, x509, limit, size, offset + size, one.rest));
    }
  }

  /** The inner loop. */
  method ReadEntries(dec: Decoders, r: Buffer, x509: bool, listSize: uint32, size: uint32)
    returns (s: Option<Signatures>)
    modifies r
    ensures match ParseEntries(dec, x509, Narrow32(listSize - 28), size, 0, old(r.unread))
            case Fail => s == None
            case Got(v, rest) => s == Some(v) && r.unread == rest
  {
    ghost var all := ParseEntries(dec, x509, Narrow32(listSize - 28), size, 0, r.unread);
    var acc, sigOffset := NO_SIGNATURES, 0;
    BehindBehind(acc, acc, all);
    while Narrow32(sigOffset) < Narrow32(listSize - 28)
      invariant 0 <= sigOffset
      invariant all == Behind(acc, ParseEntries(dec, x509, Narrow32(listSize - 28), size, sigOffset, r.unread))
      decreases |r.unread|
    {
      EntriesStep(dec, x509, Narrow32(listSize - 28), size, sigOffset, r.unread, acc);
      var one := ReadEntry(dec, r, x509, size);
      if one == None {
        return None;
      }
      sigOffset := sigOffset + size;
      acc := acc.Plus(one.value);
    }
    BehindBehind(acc, NO_SIGNATURES, Fail);
    s := Some(acc);
  }

  /** The body of the outer loop. */
  method ReadList(dec: Decoders, r: Buffer) returns (s: Option<Signatures>)
    modifies r
    ensures match ParseList(dec, old(r.unread))
            case Fail => s == None
            case Got(v, rest) => s == Some(v) && r.unread == rest
  {
    ghost var u := r.unread;
    var header := r.ReadFull(28);
    if header == None {
      return None;
    }
    var h := header.value;
    assert h[..16] == u[..16] && h[16..20] == u[16..20] && h[20..24] == u[20..24] && h[24..28] == u[24..28];
    if U32(h[20..24]) > MAX_DATA_LEN || U32(h[16..20]) > MAX_DATA_LEN {
      return None;
    }
    var kind := ListKind(h[..16]);
    if kind == None {
      return None;
    }
    s := ReadEntries(dec, r, kind.value, U32(h[16..20]), U32(h[24..28]));
  }

  lemma ListsStep(dec: Decoders, b: bytes, acc: Signatures)
    requires b != []
    ensures match ParseList(dec, b)
            case Fail => Behind(acc, ParseLists(dec, b)) == Fail
            case Got(s, rest) => Behind(acc, ParseLists(dec, b)) == Behind(acc.Plus(s), ParseLists(dec, rest))
  {
    var one := ParseList(dec, b);
    if one.Got? {
      BehindBehind(acc, one.value, ParseLists(dec, one.rest));
    }
  }

  method ParseEfiSignatureList(dec: Decoders, b: bytes) returns (s: Option<Signatures>)
    ensures s == ParseSignatureList(dec, b)
  {
    if |b| < 28 {
      return Some(NO_SIGNATURES);
    }
    ghost var all := ParseLists(dec, b);
    var r := new Buffer(b);
    var acc := NO_SIGNATURES;
    BehindBehind(acc, acc, all);
    while |r.unread| > 0
      invariant all == Behind(acc, ParseLists(dec, r.unread))
      decreases |r.unread|
    {
      ListsStep(dec, r.unread, acc);
      var one := ReadList(dec, r);
      if one == None {
        return None;
      }
      acc := acc.Plus(one.value);
    }
    BehindBehind(acc, NO_SIGNATURES, Fail);
    s := Some(acc);
  }

  // ----- Signature lists as they are written -----

  datatype Entry = Entry(owner: bytes, data: bytes)

  datatype SignatureList = SignatureList(x509: bool, header: bytes, size: uint32, entries: seq<Entry>)

  function EntryBytes(entries: seq<Entry>): bytes {
    if entries == [] then [] else entries[0].owner + entries[0].data + EntryBytes(entries[1..])
  }

  function Guid(x509: bool): (g: bytes)
    ensures |g| == 16
    ensures ListKind(g) == Some(x509)
  {
    assert X509_GUID[0] != SHA256_GUID[0];
    if x509 then X509_GUID else SHA256_GUID
  }

  /** The bytes behind the fixed fields of a list: the signature header and the signatures. */
  function Body(l: SignatureList): bytes {
    l.header + EntryBytes(l.entries)
  }

  /** EFI_SIGNATURE_LIST: type, list size, header size, signature size, header, signatures. */
  function ListBytes(l: SignatureList): bytes {
    ListHeader(Guid(l.x509), Narrow32(28 + |Body(l)|), Narrow32(|l.header|), l.size) + Body(l)
  }

  function ListHeader(guid: bytes, listSize: uint32, headerSize: uint32, size: uint32): bytes {
    guid + Put32(listSize) + Put32(headerSize) + Put32(size)
  }

  predicate WellSizedEntries(dec: Decoders, x509: bool, size: uint32, entries: seq<Entry>) {
    forall e | e in entries ::
      |e.owner| == 16 && |e.data| + 16 == size && (x509 ==> dec.parseCert(e.data).Some?)
  }

  predicate WellSized(dec: Decoders, l: SignatureList) {
    && 16 <= l.size
    && 28 + |Body(l)| <= MAX_DATA_LEN
    && WellSizedEntries(dec, l.x509, l.size, l.entries)
  }

  function AllListBytes(ls: seq<SignatureList>): bytes {
    if ls == [] then [] else ListBytes(ls[0]) + AllListBytes(ls[1..])
  }

  /** The signatures of one list in order. */
  function Contents(dec: Decoders, x509: bool, entries: seq<Entry>): Signatures {
    if entries == [] then NO_SIGNATURES
    else Signature(dec, x509, entries[0].data).GetOr(NO_SIGNATURES).Plus(Contents(dec, x509, entries[1..]))
  }

  function AllContents(dec: Decoders, ls: seq<SignatureList>): Signatures {
    if ls == [] then NO_SIGNATURES else Contents(dec, ls[0].x509, ls[0].entries).Plus(AllContents(dec, ls[1..]))
  }

  lemma Reassociate(a: bytes, b: bytes, c: bytes)
    ensures a + b + c == a + (b + c)
  {
  }

  lemma EntryRoundTrip(dec: Decoders, x509: bool, size: uint32, e: Entry, rest: bytes)
    requires |e.owner| == 16 && |e.data| + 16 == size
    requires x509 ==> dec.parseCert(e.data).Some?
    ensures ParseEntry(dec, x509, size, e.owner + e.data + rest) == Got(Signature(dec, x509, e.data).value, rest)
  {
  }

  lemma {:induction false} EntriesRoundTrip(dec: Decoders, x509: bool, size: uint32, entries: seq<Entry>, offset: nat, rest: bytes)
    requires 16 <= size && WellSizedEntries(dec, x509, size, entries)
    requires offset + |EntryBytes(entries)| <= MAX_DATA_LEN
    ensures ParseEntries(dec, x509, offset + |EntryBytes(entries)|, size, offset, EntryBytes(entries) + rest) ==
            Got(Contents(dec, x509, entries), rest)
  {
    if entries == [] {
      assert [] + rest == rest;
    } else {
      var e, more := entries[0], entries[1..];
      assert e in entries;
      Reassociate(e.owner + e.data, EntryBytes(more), rest);
      EntryRoundTrip(dec, x509, size, e, EntryBytes(more) + rest);
      EntriesRoundTrip(dec, x509, size, more, offset + size, rest);
    }
  }

  lemma HeaderFields(guid: bytes, a: uint32, b: uint32, c: uint32, rest: bytes)
    requires |guid| == 16
    ensures var h := ListHeader(guid, a, b, c) + rest;
            && |h| >= 28 && h[..16] == guid && h[28..] == rest
            && U32(h[16..20]) == a && U32(h[20..24]) == b && U32(h[24..28]) == c
  {
    var h := ListHeader(guid, a, b, c) + rest;
    assert h[16..20] == Put32(a);
    assert h[20..24] == Put32(b);
    assert h[24..28] == Put32(c);
  }

  lemma HeaderParses(dec: Decoders, x509: bool, listSize: uint32, headerSize: uint32, size: uint32, rest: bytes)
    requires listSize <= MAX_DATA_LEN && headerSize <= MAX_DATA_LEN
    ensures ParseList(dec, ListHeader(Guid(x509), listSize, headerSize, size) + rest) ==
            ParseEntries(dec, x509, Narrow32(listSize - 28), size, 0, rest)
  {
    HeaderFields(Guid(x509), listSize, headerSize, size, rest);
  }

  lemma ListIsHeaderAndBody(l: SignatureList, rest: bytes)
    requires 28 + |Body(l)| <= MAX_DATA_LEN
    ensures ListBytes(l) + rest == ListHeader(Guid(l.x509), 28 + |Body(l)|, |l.header|, l.size) + (Body(l) + rest)
  {
  }

  /** The signature header is read as if it were signatures. */
  lemma ListToEntries(dec: Decoders, l: SignatureList, rest: bytes)
    requires 28 + |Body(l)| <= MAX_DATA_LEN
    ensures ParseList(dec, ListBytes(l) + rest) == ParseEntries(dec, l.x509, |Body(l)|, l.size, 0, Body(l) + rest)
  {
    ListIsHeaderAndBody(l, rest);
    HeaderParses(dec, l.x509, 28 + |Body(l)|, |l.header|, l.size, Body(l) + rest);
  }

  lemma OneMore(n: nat, size: nat)
    ensures (1 + n) * size == size + n * size
  {
  }

  lemma EntriesMore(dec: Decoders, x509: bool, limit: uint32, size: uint32, offset: nat, b: bytes)
    requires Narrow32(offset) < limit && ParseEntries(dec, x509, limit, size, offset, b).Got?
    ensures ParseEntry(dec, x509, size, b).Got?
    ensures var rest := ParseEntries(dec, x509, limit, size, offset + size, ParseEntry(dec, x509, size, b).rest);
            rest.Got? && ParseEntries(dec, x509, limit, size, offset, b).value.Count() == 1 + rest.value.Count()
  {
  }

  /** The inner loop does not stop before the offset is at the limit. */
  lemma {:induction false} EntriesReachLimit(dec: Decoders, x509: bool, limit: uint32, size: uint32, offset: nat, b: bytes)
    requires limit <= MAX_DATA_LEN && size <= MAX_DATA_LEN && offset <= 2 * MAX_DATA_LEN
    requires ParseEntries(dec, x509, limit, size, offset, b).Got?
    ensures offset + ParseEntries(dec, x509, limit, size, offset, b).value.Count() * size >= limit
    decreases |b|
  {
    if offset >= limit {
    } else {
      EntriesMore(dec, x509, limit, size, offset, b);
      var rest := ParseEntry(dec, x509, size, b).rest;
      EntriesReachLimit(dec, x509, limit, size, offset + size, rest);
      OneMore(ParseEntries(dec, x509, limit, size, offset + size, rest).value.Count(), size);
    }
  }

  lemma {:induction false} ContentsCount(dec: Decoders, x509: bool, size: uint32, entries: seq<Entry>)
    requires WellSizedEntries(dec, x509, size, entries)
    ensures Contents(dec, x509, entries).Count() == |entries|
    ensures |EntryBytes(entries)| == |entries| * size
  {
    if entries == [] {
    } else {
      assert entries[0] in entries;
      ContentsCount(dec, x509, size, entries[1..]);
      OneMore(|entries[1..]|, size);
      assert |entries| == 1 + |entries[1..]|;
    }
  }

  /** Header bytes always make the loop read more signatures than there are. */
  lemma HeaderReadsMore(dec: Decoders, l: SignatureList, rest: bytes)
    requires WellSized(dec, l) && l.header != [] && ParseList(dec, ListBytes(l) + rest).Got?
    ensures ParseList(dec, ListBytes(l) + rest).value.Count() > |l.entries|
  {
    ListToEntries(dec, l, rest);
    ContentsCount(dec, l.x509, l.size, l.entries);
    if l.entries == [] {
    } else {
      assert l.entries[0] in l.entries;
      assert l.size <= |EntryBytes(l.entries)|;
      EntriesReachLimit(dec, l.x509, |Body(l)|, l.size, 0, Body(l) + rest);
      Below(|l.entries|, ParseList(dec, ListBytes(l) + rest).value.Count(), l.size);
    }
  }

  lemma HeaderlessReadBack(dec: Decoders, l: SignatureList, rest: bytes)
    requires WellSized(dec, l) && l.header == []
    ensures ParseList(dec, ListBytes(l) + rest) == Got(Contents(dec, l.x509, l.entries), rest)
  {
    var entries := EntryBytes(l.entries);
    assert Body(l) == entries;
    ListToEntries(dec, l, rest);
    assert ParseList(dec, ListBytes(l) + rest) == ParseEntries(dec, l.x509, |entries|, l.size, 0, entries + rest);
    EntriesRoundTrip(dec, l.x509, l.size, l.entries, 0, rest);
  }

  /** A well-sized list is read back exactly when it has no signature header. */
  lemma ListReadBackIff(dec: Decoders, l: SignatureList, rest: bytes)
    requires WellSized(dec, l)
    ensures ParseList(dec, ListBytes(l) + rest) == Got(Contents(dec, l.x509, l.entries), rest) <==> l.header == []
  {
    if l.header == [] {
      HeaderlessReadBack(dec, l, rest);
    } else {
      ContentsCount(dec, l.x509, l.size, l.entries);
      if ParseList(dec, ListBytes(l) + rest).Got? {
        HeaderReadsMore(dec, l, rest);
      }
    }
  }

  lemma OneListRead(dec: Decoders, b: bytes, s: Signatures)
    requires |b| >= 28 && ParseList(dec, b) == Got(s, [])
    ensures ParseSignatureList(dec, b) == Some(s)
  {
    BehindBehind(s, NO_SIGNATURES, Got(NO_SIGNATURES, []));
    assert ParseLists(dec, []) == Got(NO_SIGNATURES, []);
    assert ParseLists(dec, b) == Behind(s, ParseLists(dec, [])) == Got(s.Plus(NO_SIGNATURES), []);
  }

  lemma TwoHashes(dec: Decoders, a: Entry, b: Entry)
    ensures Contents(dec, false, [a, b]) == Signatures([], [a.data, b.data])
    ensures EntryBytes([a, b]) == a.owner + a.data + (b.owner + b.data)
    ensures EntryBytes([b]) == b.owner + b.data
  {
    assert [a, b][1..] == [b] && [b][1..] == [];
    assert Contents(dec, false, [b]) == Signatures([], [b.data]);
    assert EntryBytes([b]) == b.owner + b.data + [] == b.owner + b.data;
  }

  /** A list of one hash with a header of 48 bytes: two hashes are read, the first from the header. */
  lemma HeaderReadAsHash(dec: Decoders, h: bytes, e: Entry)
    requires |h| == 48 && |e.owner| == 16 && |e.data| == 32
    ensures WellSized(dec, SignatureList(false, h, 48, [e]))
    ensures ParseSignatureList(dec, ListBytes(SignatureList(false, h, 48, [e]))) == Some(Signatures([], [h[16..], e.data]))
  {
    var l, first := SignatureList(false, h, 48, [e]), Entry(h[..16], h[16..]);
    TwoHashes(dec, first, e);
    assert h == h[..16] + h[16..];
    assert Body(l) == EntryBytes([first, e]);
    ListToEntries(dec, l, []);
    EntriesRoundTrip(dec, false, 48, [first, e], 0, []);
    assert ListBytes(l) + [] == ListBytes(l) && Body(l) + [] == EntryBytes([first, e]) + [];
    OneListRead(dec, ListBytes(l), Signatures([], [h[16..], e.data]));
  }

  predicate Headerless(dec: Decoders, ls: seq<SignatureList>) {
    forall l | l in ls :: WellSized(dec, l) && l.header == []
  }

  /** Parsing written lists gives back every certificate and every hash, in order. */
  lemma {:induction false} ListsRoundTrip(dec: Decoders, ls: seq<SignatureList>)
    requires Headerless(dec, ls)
    ensures ParseLists(dec, AllListBytes(ls)) == Got(AllContents(dec, ls), [])
  {
    if ls == [] {
    } else {
      assert ls[0] in ls;
      ListReadBackIff(dec, ls[0], AllListBytes(ls[1..]));
      ListsRoundTrip(dec, ls[1..]);
    }
  }

  lemma SignatureListRoundTrip(dec: Decoders, ls: seq<SignatureList>)
    requires Headerless(dec, ls)
    ensures ParseSignatureList(dec, AllListBytes(ls)) == Some(AllContents(dec, ls))
  {
    ListsRoundTrip(dec, ls);
    if ls != [] {
      assert |AllListBytes(ls)| >= 28;
    }
  }

  // ----- Variable authorities -----

  const SHIM_LOCK_GUID: bytes :=
    [0x50, 0xab, 0x5d, 0x60, 0x46, 0xe0, 0x00, 0x43, 0xab, 0xb6, 0x3d, 0xd8, 0x10, 0xdd, 0x8b, 0x23]
  const SBAT_LEVEL: seq<uint16> := [0x53, 0x62, 0x61, 0x74, 0x4c, 0x65, 0x76, 0x65, 0x6c]
  const MOK_LIST_TRUSTED: seq<uint16> :=
    [0x4d, 0x6f, 0x6b, 0x4c, 0x69, 0x73, 0x74, 0x54, 0x72, 0x75, 0x73, 0x74, 0x65, 0x64]

  /** The certificates of an authority; missingGUID when they parse only without the owner's GUID. */
  datatype Authority = NoAuthority | Authority(certs: seq<Certificate>, missingGUID: bool)

  function ParseSignature(dec: Decoders, b: bytes): Authority {
    if |b| < 16 then NoAuthority
    else if dec.parseCert(b[16..]).Some? then Authority([dec.parseCert(b[16..]).value], false)
    else if dec.parseCert(b).Some? then Authority([dec.parseCert(b).value], true)
    else NoAuthority
  }

  function ParseAuthority(dec: Decoders, v: Variable): Authority {
    if v.guid == SHIM_LOCK_GUID && (v.name == SBAT_LEVEL || v.name == MOK_LIST_TRUSTED) then Authority([], false)
    else ParseSignature(dec, v.data)
  }

  // ----- Image loads and device paths -----

  const HARDWARE_DEVICE: byte := 0x01
  const MEDIA_DEVICE: byte := 0x04
  const END_MARKER: byte := 0x7f

  datatype PathElement = PathElement(typ: byte, subtype: byte, data: bytes)

  /** Type, subtype, length of the whole element, data. */
  function ParseElement(b: bytes): (p: Parsed<PathElement>)
    ensures p.Got? ==> |p.rest| + 4 <= |b|
  {
    if |b| < 4 then Fail
    else
      var n := U16(b[2..4]);
      if n > MAX_NAME_LEN || n < 4 || |b| < n then Fail else Got(PathElement(b[0], b[1], b[4..n]), b[n..])
  }

  /** The elements up to the end marker or the end of the data. */
  function ParsePath(b: bytes): Option<seq<PathElement>>
    decreases |b|
  {
    if b == [] then Some([])
    else
      match ParseElement(b)
      case Fail => None
      case Got(e, rest) => if e.typ == END_MARKER then Some([]) else Before([e], ParsePath(rest))
  }

  /** The device path of an EFI_IMAGE_LOAD_EVENT, behind four 64-bit fields of which the last is its length. */
  function ParseImageLoad(b: bytes): Option<bytes> {
    if |b| < 32 then None
    else
      var n := U64(b[24..32]);
      if n > MAX_NAME_LEN || |b| - 32 < n then None else Some(b[32..32 + n])
  }

  method ParseDevicePathElement(r: Buffer) returns (e: Option<PathElement>)
    modifies r
    ensures match ParseElement(old(r.unread))
            case Fail => e == None
            case Got(v, rest) => e == Some(v) && r.unread == rest
  {
    ghost var b := r.unread;
    var h := r.ReadFull(4);
    if h == None {
      return None;
    }
    assert h.value[2..] == b[2..4];
    var n := U16(h.value[2..]);
    if n > MAX_NAME_LEN || n < 4 {
      return None;
    }
    var data := r.ReadFull(n - 4);
    if data == None {
      return None;
    }
    assert data.value == b[4..n];
    e := Some(PathElement(h.value[0], h.value[1], data.value));
  }

  method DevicePath(b: bytes) returns (path: Option<seq<PathElement>>)
    ensures path == ParsePath(b)
  {
    var r := new Buffer(b);
    var out: seq<PathElement> := [];
    BeforeBefore([], [], ParsePath(b));
    while |r.unread| > 0
      invariant ParsePath(b) == Before(out, ParsePath(r.unread))
      decreases |r.unread|
    {
      ghost var p := ParseElement(r.unread);
      var e := ParseDevicePathElement(r);
      if e == None {
        return None;
      }
      if e.value.typ == END_MARKER {
        BeforeBefore(out, [], Some([]));
        return Some(out);
      }
      BeforeBefore(out, [e.value], ParsePath(p.rest));
      out := out + [e.value];
    }
    BeforeBefore(out, [], Some([]));
    path := Some(out);
  }

  method ParseEFIImageLoad(b: bytes) returns (path: Option<bytes>)
    ensures path == ParseImageLoad(b)
  {
    var r := new Buffer(b);
    var h := r.ReadFull(32);
    if h == None {
      return None;
    }
    assert h.value[24..] == b[24..32];
    var n := U64(h.value[24..]);
    if n > MAX_NAME_LEN {
      return None;
    }
    path := r.ReadFull(n);
    assert path.Some? ==> path.value == b[32..32 + n];
  }
}
