/**
 The nested readers of Windows SIPA data (attest/win_events.go:
 readELAMAggregation, readLoadedModuleAggregation and the field parsers).

 A limited reader is the buffer it reads from together with the count n of bytes it may
 still deliver; reading through an inner limited reader lowers the counts of all outer ones.
 */
module SipaReaders {
  import opened Bytes

  const ELAM_AGGREGATION: uint32 := 0x40010002
  const LOADED_MODULE_AGGREGATION: uint32 := 0x40010003
  const FILE_PATH: uint32 := 0x00070001
  const IMAGE_SIZE: uint32 := 0x00070002
  const HASH_ALGORITHM_ID: uint32 := 0x00070003
  const AUTHENTICODE_HASH: uint32 := 0x00070004
  const AUTHORITY_ISSUER: uint32 := 0x00070005
  const AUTHORITY_SERIAL: uint32 := 0x00070006
  const IMAGE_BASE: uint32 := 0x00070007
  const AUTHORITY_PUBLISHER: uint32 := 0x00070008
  const AUTHORITY_SHA1_THUMBPRINT: uint32 := 0x00070009
  const IMAGE_VALIDATED: uint32 := 0x0007000A
  const MODULE_SVN: uint32 := 0x0007000B
  const ELAM_KEYNAME: uint32 := 0x00090001
  const ELAM_CONFIGURATION: uint32 := 0x00090002
  const ELAM_POLICY: uint32 := 0x00090003
  const ELAM_MEASURED: uint32 := 0x00090004

  /** UTF-16 decoding, of which nothing is assumed. */
  type Utf16 = seq<uint16> -> string

  // ----- Reading through a limit -----

  /** Reads k bytes of at most n; a short read drains what the limit allows. */
  method LimitedRead(r: Buffer, n: nat, k: nat) returns (data: Option<bytes>, left: nat)
    modifies r
    ensures |r.unread| <= |old(r.unread)| && n - left == |old(r.unread)| - |r.unread|
    ensures data.Some? <==> k <= n && k <= |old(r.unread)|
    ensures data.Some? ==> data.value == old(r.unread)[..k] && r.unread == old(r.unread)[k..]
    ensures data == None && n <= |old(r.unread)| ==> r.unread == old(r.unread)[n..]
  {
    if k <= n && k <= |r.unread| {
      data := r.ReadFull(k);
      left := n - k;
    } else {
      var available := if n < |r.unread| then n else |r.unread|;
      data := r.ReadFull(available);
      data, left := None, n - available;
    }
  }

  /** The units of a UTF-16 field; an odd byte at its end is not read. */
  function Units(b: bytes): seq<uint16>
    decreases |b|
  {
    if |b| < 2 then [] else [U16(b[..2])] + Units(b[2..])
  }

  /** parseUTF16: decoded, without one trailing NUL. */
  function Text(utf16: Utf16, b: bytes): string {
    var s := utf16(Units(b));
    if s != "" && s[|s| - 1] == 0 as char then s[..|s| - 1] else s
  }

  /** How much of a field's announced size its parser reads. */
  function Taken(typ: uint32, size: nat): (n: nat)
    ensures size - 1 <= n <= size
  {
    if typ == ELAM_KEYNAME || typ == FILE_PATH || typ == AUTHORITY_ISSUER || typ == AUTHORITY_PUBLISHER
    then size / 2 * 2 else size
  }

  // ----- ELAM aggregations -----

  datatype WinELAM = WinELAM(measured: bytes, config: bytes, policy: bytes)

  datatype ElamFields = ElamFields(name: string, measured: Option<bytes>, policy: Option<bytes>, config: Option<bytes>)

  const NO_ELAM := ElamFields("", None, None, None)

  /** A field is refused when it has a value other than the initial one; an empty name may be given again. */
  function ElamField(utf16: Utf16, f: ElamFields, typ: uint32, data: bytes): Option<ElamFields> {
    if typ == ELAM_KEYNAME && f.name == "" then Some(f.(name := Text(utf16, data)))
    else if typ == ELAM_MEASURED && f.measured == None then Some(f.(measured := Some(data)))
    else if typ == ELAM_POLICY && f.policy == None then Some(f.(policy := Some(data)))
    else if typ == ELAM_CONFIGURATION && f.config == None then Some(f.(config := Some(data)))
    else None
  }

  predicate ElamFieldAllowed(f: ElamFields, typ: uint32) {
    || (typ == ELAM_KEYNAME && f.name == "")
    || (typ == ELAM_MEASURED && f.measured == None)
    || (typ == ELAM_POLICY && f.policy == None)
    || (typ == ELAM_CONFIGURATION && f.config == None)
  }

  datatype ElamResult = ElamResult(ok: bool, rest: bytes, elam: map<string, WinELAM>)

  /** What is made of the bytes w still allowed by the limit; rest is what is left unread of them. */
  function Elam(utf16: Utf16, w: bytes, f: ElamFields, elam: map<string, WinELAM>): (r: ElamResult)
    ensures |r.rest| <= |w|
    ensures r.ok ==> r.rest == []
    decreases |w|
  {
    if w == [] then
      if f.name == "" then ElamResult(false, [], elam)
      else ElamResult(true, [], elam[f.name := WinELAM(f.measured.GetOr([]), f.config.GetOr([]), f.policy.GetOr([]))])
    else if |w| < 8 then ElamResult(false, [], elam)
    else
      var typ, size, p := U32(w[..4]), U32(w[4..8]), w[8..];
      if size > |p| then ElamResult(false, p, elam)
      else if typ == ELAM_AGGREGATION then
        var inner := Elam(utf16, p[..size], NO_ELAM, elam);
        var rest := inner.rest + p[size..];
        if rest == [] then ElamResult(true, [], inner.elam) else Elam(utf16, rest, f, inner.elam)
      else
        match ElamField(utf16, f, typ, p[..Taken(typ, size)])
        case None => ElamResult(false, p, elam)
        case Some(next) => Elam(utf16, p[Taken(typ, size)..], next, elam)
  }

  /** The same on a buffer of which the limit allows the first n bytes; rest is what is left of the buffer. */
  function ElamOn(utf16: Utf16, b: bytes, n: nat, f: ElamFields, elam: map<string, WinELAM>): (r: ElamResult)
    requires n <= |b|
    ensures |b| - n <= |r.rest| <= |b|
  {
    var e := Elam(utf16, b[..n], f, elam);
    e.(rest := e.rest + b[n..])
  }

  lemma WindowSlices(b: bytes, n: nat, i: nat)
    requires i <= n <= |b|
    ensures b[i..][..n - i] == b[..n][i..] && b[i..][n - i..] == b[n..]
    ensures b[..n][..i] == b[..i] && b[..n][i..] + b[n..] == b[i..]
  {
  }

  lemma WindowHeader(b: bytes, n: nat)
    requires 8 <= n <= |b|
    ensures b[..n][..4] == b[..4] && b[..n][4..8] == b[4..8]
  {
  }

  /** One turn of the aggregation loop, seen on the buffer. */
  lemma ElamStep(utf16: Utf16, b: bytes, n: nat, f: ElamFields, elam: map<string, WinELAM>)
    requires 8 <= n <= |b|
    ensures var typ, size, p, left := U32(b[..4]), U32(b[4..8]), b[8..], n - 8;
            if size > left then ElamOn(utf16, b, n, f, elam) == ElamResult(false, p, elam)
            else if typ == ELAM_AGGREGATION then
              var inner := ElamOn(utf16, p, size, NO_ELAM, elam);
              var left' := left - (|p| - |inner.rest|);
              left' >= 0 && ElamOn(utf16, b, n, f, elam) ==
              if left' == 0 then inner.(ok := true) else ElamOn(utf16, inner.rest, left', f, inner.elam)
            else
              var taken := Taken(typ, size);
              ElamOn(utf16, b, n, f, elam) ==
              match ElamField(utf16, f, typ, p[..taken])
              case None => ElamResult(false, p, elam)
              case Some(next) => ElamOn(utf16, p[taken..], left - taken, next, elam)
  {
    var typ, size, p, left := U32(b[..4]), U32(b[4..8]), b[8..], n - 8;
    WindowHeader(b, n);
    WindowSlices(b, n, 8);
    if size <= left {
      if typ == ELAM_AGGREGATION {
        ElamNestedStep(utf16, p, left, size, f, elam);
      } else {
        WindowSlices(p, left, Taken(typ, size));
      }
    }
  }

  lemma ElamNestedStep(utf16: Utf16, p: bytes, left: nat, size: nat, f: ElamFields, elam: map<string, WinELAM>)
    requires size <= left <= |p|
    ensures var e, inner := Elam(utf16, p[..left][..size], NO_ELAM, elam), ElamOn(utf16, p, size, NO_ELAM, elam);
            var left' := left - (|p| - |inner.rest|);
            && e.ok == inner.ok && e.elam == inner.elam
            && |e.rest + p[..left][size..]| == left' <= |inner.rest|
            && inner.rest[..left'] == e.rest + p[..left][size..] && inner.rest[left'..] == p[left..]
  {
    WindowSlices(p, left, size);
    var e := Elam(utf16, p[..size], NO_ELAM, elam);
    assert e.rest + p[size..] == (e.rest + p[..left][size..]) + p[left..];
  }

  // ----- Loaded module aggregations -----

  datatype ModuleFields = ModuleFields(
    imageBase: uint64, hash: Option<bytes>, path: string, imageSize: uint64, alg: uint32, validated: bool,
    issuer: string, publisher: string, serial: Option<bytes>, sha1: Option<bytes>)

  const NO_MODULE := ModuleFields(0, None, "", 0, 0, false, "", "", None, None)

  /** The CSP algorithms: MD4, MD5, SHA1, SHA256, SHA384, SHA512. */
  predicate KnownAlg(id: uint32) {
    id in {0x02, 0x03, 0x04, 0x0c, 0x0d, 0x0e}
  }

  /** Whether the field may be read: not seen before, and of an accepted size. */
  predicate ModuleFieldAllowed(f: ModuleFields, typ: uint32, size: nat) {
    || (typ == IMAGE_BASE && f.imageBase == 0 && size == 8)
    || (typ == AUTHENTICODE_HASH && f.hash == None && size <= 32)
    || (typ == FILE_PATH && f.path == "")
    || (typ == IMAGE_SIZE && f.imageSize == 0 && size == 8)
    || (typ == HASH_ALGORITHM_ID && f.alg == 0 && size == 4)
    || (typ == IMAGE_VALIDATED && !f.validated && size == 1)
    || (typ == AUTHORITY_ISSUER && f.issuer == "")
    || (typ == AUTHORITY_PUBLISHER && f.publisher == "")
    || (typ == AUTHORITY_SERIAL && f.serial == None && size <= 128)
    || (typ == AUTHORITY_SHA1_THUMBPRINT && f.sha1 == None && size <= 20)
    || typ == MODULE_SVN
  }

  function ModuleField(utf16: Utf16, f: ModuleFields, typ: uint32, size: nat, data: bytes): Option<ModuleFields>
    requires |data| == Taken(typ, size)
  {
    if !ModuleFieldAllowed(f, typ, size) then None
    else if typ == IMAGE_BASE then Some(f.(imageBase := U64(data)))
    else if typ == AUTHENTICODE_HASH then Some(f.(hash := Some(data)))
    else if typ == FILE_PATH then Some(f.(path := Text(utf16, data)))
    else if typ == IMAGE_SIZE then Some(f.(imageSize := U64(data)))
    else if typ == HASH_ALGORITHM_ID then
      (if KnownAlg(U32(data) % 0x100) then Some(f.(alg := U32(data) % 0x100)) else None)
    else if typ == IMAGE_VALIDATED then Some(f.(validated := data[0] == 1))
    else if typ == AUTHORITY_ISSUER then Some(f.(issuer := Text(utf16, data)))
    else if typ == AUTHORITY_PUBLISHER then Some(f.(publisher := Text(utf16, data)))
    else if typ == AUTHORITY_SERIAL then Some(f.(serial := Some(data)))
    else if typ == AUTHORITY_SHA1_THUMBPRINT then Some(f.(sha1 := Some(data)))
    else Some(f)
  }

  function LoadedModule(utf16: Utf16, w: bytes, f: ModuleFields): Option<ModuleFields>
    decreases |w|
  {
    if w == [] then Some(f)
    else if |w| < 8 then None
    else
      var typ, size, p := U32(w[..4]), U32(w[4..8]), w[8..];
      if size > |p| then None
      else
        match ModuleField(utf16, f, typ, size, p[..Taken(typ, size)])
        case None => None
        case Some(next) => LoadedModule(utf16, p[Taken(typ, size)..], next)
  }

  /** One turn of the loop, seen on a buffer of which the limit allows the first n bytes. */
  lemma LoadedModuleStep(utf16: Utf16, b: bytes, n: nat, f: ModuleFields)
    requires 8 <= n <= |b|
    ensures var typ, size, p, left := U32(b[..4]), U32(b[4..8]), b[8..], n - 8;
            LoadedModule(utf16, b[..n], f) ==
            if size > left then None
            else
              match ModuleField(utf16, f, typ, size, p[..Taken(typ, size)])
              case None => None
              case Some(next) => LoadedModule(utf16, p[Taken(typ, size)..][..left - Taken(typ, size)], next)
  {
    WindowHeader(b, n);
    WindowSlices(b, n, 8);
    if U32(b[4..8]) <= n - 8 {
      WindowSlices(b[8..], n - 8, Taken(U32(b[..4]), U32(b[4..8])));
    }
  }

  // ----- The reading loops -----

  /** Type and size of a sub-event. */
  method ReadHeader(r: Buffer, n: nat) returns (h: Option<(uint32, uint32)>, left: nat)
    modifies r
    ensures |r.unread| <= |old(r.unread)| && n - left == |old(r.unread)| - |r.unread|
    ensures h.Some? <==> 8 <= n && 8 <= |old(r.unread)|
    ensures h.Some? ==> h.value == (U32(old(r.unread)[..4]), U32(old(r.unread)[4..8])) && r.unread == old(r.unread)[8..]
    ensures h == None && n <= |old(r.unread)| ==> r.unread == old(r.unread)[n..]
  {
    ghost var b := r.unread;
    var data;
    data, left := LimitedRead(r, n, 8);
    if data == None {
      return None, left;
    }
    assert data.value[..4] == b[..4] && data.value[4..] == b[4..8];
    h := Some((U32(data.value[..4]), U32(data.value[4..])));
  }

  /** A field is refused before its data is read. */
  method ReadElamField(utf16: Utf16, r: Buffer, n: nat, f: ElamFields, typ: uint32, size: nat)
    returns (next: Option<ElamFields>, left: nat)
    requires size <= n
    modifies r
    ensures |r.unread| <= |old(r.unread)| && n - left == |old(r.unread)| - |r.unread|
    ensures n <= |old(r.unread)| ==>
              next == ElamField(utf16, f, typ, old(r.unread)[..Taken(typ, size)]) &&
              r.unread == if next.Some? then old(r.unread)[Taken(typ, size)..] else old(r.unread)
  {
    if !ElamFieldAllowed(f, typ) {
      return None, n;
    }
    var data;
    data, left := LimitedRead(r, n, Taken(typ, size));
    if data == None {
      return None, left;
    }
    next := ElamField(utf16, f, typ, data.value);
  }

  method ReadModuleField(utf16: Utf16, r: Buffer, n: nat, f: ModuleFields, typ: uint32, size: nat)
    returns (next: Option<ModuleFields>, left: nat)
    requires size <= n
    modifies r
    ensures |r.unread| <= |old(r.unread)| && n - left == |old(r.unread)| - |r.unread|
    ensures n <= |old(r.unread)| ==>
              next == ModuleField(utf16, f, typ, size, old(r.unread)[..Taken(typ, size)]) &&
              (next.Some? ==> r.unread == old(r.unread)[Taken(typ, size)..])
  {
    if !ModuleFieldAllowed(f, typ, size) {
      return None, n;
    }
    var data;
    data, left := LimitedRead(r, n, Taken(typ, size));
    if data == None {
      return None, left;
    }
    next := ModuleField(utf16, f, typ, size, data.value);
  }

  /** readLoadedModuleAggregation, up to its entry in the table of modules. */
  method ReadLoadedModule(utf16: Utf16, r: Buffer, size: nat) returns (m: Option<ModuleFields>)
    modifies r
    ensures size > |old(r.unread)| ==> m == None
    ensures size <= |old(r.unread)| ==>
              m == LoadedModule(utf16, old(r.unread)[..size], NO_MODULE) &&
              (m.Some? ==> r.unread == old(r.unread)[size..])
  {
    ghost var all := r.unread;
    var n, f := size, NO_MODULE;
    while n > 0
      invariant 0 <= n && |r.unread| <= |all| && |all| - |r.unread| == size - n
      invariant size <= |all| ==>
                  && n <= |r.unread| && r.unread[n..] == all[size..]
                  && LoadedModule(utf16, all[..size], NO_MODULE) == LoadedModule(utf16, r.unread[..n], f)
      decreases n
    {
      if 8 <= n <= |r.unread| {
        LoadedModuleStep(utf16, r.unread, n, f);
      }
      var h;
      h, n := ReadHeader(r, n);
      if h == None || h.value.1 > n {
        return None;
      }
      var next;
      next, n := ReadModuleField(utf16, r, n, f, h.value.0, h.value.1);
      if next == None {
        return None;
      }
      f := next.value;
    }
    m := Some(f);
  }
}
