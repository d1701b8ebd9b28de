/**
 Where the Windows boot state comes from (attest/win_events.go), told by the type numbers of
 SIPA events and their positions: each field of the state, each field of a module and of an
 anti-malware driver, and the events that count.
 */
module SipaMeaning {
  import opened Bytes
  import opened Hashing
  import opened Sorting
  import opened Replay
  import opened ReplayMeaning
  import opened LogLayout
  import opened UefiLayout
  import opened SipaReaders
  import opened WinEventLog
  import opened WinProperties

  // ----- Numbers -----

  lemma OneOnly(p: bytes)
    requires |p| == 4
    ensures U32(p) == 1 <==> p == [1, 0, 0, 0]
  {
    U32Of(1, 0, 0, 0);
    PutU32(p);
    PutU32([1, 0, 0, 0]);
  }

  lemma UvarintMore(x: byte, b: bytes)
    requires x < 128
    ensures Uvarint([x] + b) == Some(x)
    ensures Uvarint([x + 128] + b) ==
            match Uvarint(b)
            case None => None
            case Some(n) => Some(x + 128 * n)
  {
    assert ([x + 128] + b)[1..] == b;
  }

  /** Seven bits in each byte, least significant first, the high bit set in all but the last. */
  lemma UvarintOf(x: byte, y: byte, z: byte, rest: bytes)
    requires x < 128 && y < 128 && z < 128
    ensures Uvarint([]) == None && Uvarint([x + 128]) == None
    ensures Uvarint([x] + rest) == Some(x)
    ensures Uvarint([x + 128] + ([y] + rest)) == Some(x + 128 * y)
    ensures Uvarint([x + 128] + ([y + 128] + ([z] + rest))) == Some(x + 128 * y + 16384 * z)
  {
    UvarintMore(x, rest);
    UvarintMore(y, rest);
    UvarintMore(z, rest);
    UvarintMore(y, [z] + rest);
    UvarintMore(x, [y] + rest);
    UvarintMore(x, [y + 128] + ([z] + rest));
  }

  /** A container has 1 in the low half of the third byte of its ID. */
  lemma ContainerByte(x: byte, y: byte, z: byte, w: byte)
    ensures IsContainer(U32([x, y, z, w])) <==> z % 16 == 1
  {
    U32Of(x, y, z, w);
    var id: int := U32([x, y, z, w]);
    assert id / 0x1_0000 == z + 0x100 * w;
    assert (z + 0x100 * w) % 16 == z % 16;
  }

  // ----- The fields of the state -----

  /** The last event of this type. */
  predicate LastOf(es: seq<SipaEvent>, typ: uint32, i: nat)
    requires i < |es|
  {
    es[i].typ == typ && forall j | i < j < |es| :: es[j].typ != typ
  }

  lemma LastOfMore(es: seq<SipaEvent>, e: SipaEvent, typ: uint32, i: nat)
    requires i <= |es|
    ensures LastOf(es + [e], typ, i) <==> if i == |es| then e.typ == typ else e.typ != typ && LastOf(es, typ, i)
  {
    var all := es + [e];
    assert all[|es|] == e;
    if i < |es| {
      assert forall j | i < j < |es| :: all[j] == es[j];
    }
  }

  /** Bitlocker unlocks of PCR 12, and of any PCR but 13. */
  function Unlocks(es: seq<SipaEvent>): set<nat> {
    set k: nat | k < |es| && es[k].typ == 0x00020005 && es[k].pcr != 13
  }

  /** The last transfer of control reports a one of four bytes. */
  predicate BootedCold(es: seq<SipaEvent>) {
    exists i | 0 <= i < |es| :: LastOf(es, 0x00020003, i) && es[i].payload == [1, 0, 0, 0]
  }

  /** The last reading of the counter; zero without one. */
  predicate CountedTo(es: seq<SipaEvent>, n: uint64) {
    && (forall i | 0 <= i < |es| && LastOf(es, 0x00020002, i) :: |es[i].payload| == 8 && n == Long(es[i].payload, 0))
    && ((forall e | e in es :: e.typ != 0x00020002) ==> n == 0)
  }

  lemma ColdBootAfter(utf16: Utf16, s: WinState, e: SipaEvent)
    requires Apply(utf16, s, e).Some?
    ensures Apply(utf16, s, e).value.coldBoot == if e.typ == 0x00020003 then e.payload == [1, 0, 0, 0] else s.coldBoot
  {
    if e.typ == 0x00020003 {
      OneOnly(e.payload);
    }
  }

  lemma BootCountAfter(utf16: Utf16, s: WinState, e: SipaEvent)
    requires Apply(utf16, s, e).Some?
    ensures e.typ == 0x00020002 ==> |e.payload| == 8
    ensures Apply(utf16, s, e).value.bootCount == if e.typ == 0x00020002 then Long(e.payload, 0) else s.bootCount
  {
    if e.typ == 0x00020002 {
      LongAt(e.payload, 0);
      assert e.payload[0..8] == e.payload;
    }
  }

  lemma ColdBootMore(es: seq<SipaEvent>, e: SipaEvent)
    ensures BootedCold(es + [e]) <==> if e.typ == 0x00020003 then e.payload == [1, 0, 0, 0] else BootedCold(es)
  {
    var all := es + [e];
    forall i | 0 <= i < |all|
      ensures LastOf(all, 0x00020003, i) <==>
                if i == |es| then e.typ == 0x00020003 else e.typ != 0x00020003 && LastOf(es, 0x00020003, i)
    {
      LastOfMore(es, e, 0x00020003, i);
    }
    assert forall i | 0 <= i < |es| :: all[i] == es[i];
    assert all[|es|] == e;
  }

  lemma CountMore(es: seq<SipaEvent>, e: SipaEvent, n: uint64)
    requires CountedTo(es, n) && (e.typ == 0x00020002 ==> |e.payload| == 8)
    ensures CountedTo(es + [e], if e.typ == 0x00020002 then Long(e.payload, 0) else n)
  {
    var all := es + [e];
    forall i | 0 <= i < |all|
      ensures LastOf(all, 0x00020002, i) <==>
                if i == |es| then e.typ == 0x00020002 else e.typ != 0x00020002 && LastOf(es, 0x00020002, i)
    {
      LastOfMore(es, e, 0x00020002, i);
    }
    assert forall i | 0 <= i < |es| :: all[i] == es[i];
    assert all[|es|] == e && e in all && forall x | x in es :: x in all;
  }

  /** Cold boot is what the last transfer of control reports, the boot count what the counter read last. */
  lemma {:induction false} ScalarsMean(utf16: Utf16, es: seq<SipaEvent>)
    requires ApplyAll(utf16, INITIAL, es).Some?
    ensures ApplyAll(utf16, INITIAL, es).value.coldBoot <==> BootedCold(es)
    ensures CountedTo(es, ApplyAll(utf16, INITIAL, es).value.bootCount)
  {
    if es == [] {
    } else {
      var front, e := es[..|es| - 1], es[|es| - 1];
      assert es == front + [e];
      ScalarsMean(utf16, front);
      var s := LastApplied(utf16, es);
      ColdBootAfter(utf16, s, e);
      BootCountAfter(utf16, s, e);
      ColdBootMore(front, e);
      CountMore(front, e, s.bootCount);
    }
  }

  lemma Unlocked(utf16: Utf16, s: WinState, e: SipaEvent)
    requires Apply(utf16, s, e).Some?
    ensures if e.typ == 0x00020005 && e.pcr != 13
            then Uvarint(e.payload).Some? &&
                 Apply(utf16, s, e).value.bitlocker == s.bitlocker + [Uvarint(e.payload).value % 256]
            else Apply(utf16, s, e).value.bitlocker == s.bitlocker
  {
  }

  lemma LastApplied(utf16: Utf16, es: seq<SipaEvent>) returns (s: WinState)
    requires es != [] && ApplyAll(utf16, INITIAL, es).Some?
    ensures ApplyAll(utf16, INITIAL, es[..|es| - 1]) == Some(s)
    ensures Apply(utf16, s, es[|es| - 1]) == ApplyAll(utf16, INITIAL, es)
  {
    s := ApplyAll(utf16, INITIAL, es[..|es| - 1]).value;
  }

  /** Every unlock but those of PCR 13 is recorded, in order, by the low byte of its number. */
  lemma {:induction false} UnlocksMean(utf16: Utf16, es: seq<SipaEvent>, ks: seq<nat>)
    requires ApplyAll(utf16, INITIAL, es).Some? && Enumerates(ks, Unlocks(es))
    ensures var unlocks := ApplyAll(utf16, INITIAL, es).value.bitlocker;
            |unlocks| == |ks| && forall i | 0 <= i < |ks| ::
              Uvarint(es[ks[i]].payload).Some? && unlocks[i] == Uvarint(es[ks[i]].payload).value % 256
  {
    if es == [] {
    } else {
      var n := |es| - 1;
      var s := LastApplied(utf16, es);
      Unlocked(utf16, s, es[n]);
      assert Unlocks(es[..n]) == Unlocks(es) - {n};
      if n in Unlocks(es) {
        EnumeratesLast(ks, Unlocks(es), n);
        UnlocksMean(utf16, es[..n], ks[..|ks| - 1]);
      } else {
        UnlocksMean(utf16, es[..n], ks);
      }
    }
  }

  /** Debugging and test signing are reported when some event of their type is not zero. */
  predicate SomeNonZero(es: seq<SipaEvent>, typ: uint32) {
    exists e | e in es :: e.typ == typ && exists x | x in e.payload :: x != 0
  }

  predicate SomeZero(es: seq<SipaEvent>, typ: uint32) {
    exists e | e in es :: e.typ == typ && forall x | x in e.payload :: x == 0
  }

  predicate SomeReport(es: seq<SipaEvent>, typ: uint32) {
    exists e | e in es :: e.typ == typ
  }

  lemma BooleansMean(utf16: Utf16, es: seq<SipaEvent>)
    requires ApplyAll(utf16, INITIAL, es).Some?
    ensures var s := ApplyAll(utf16, INITIAL, es).value;
            && (s.bootDebugging <==> SomeNonZero(es, 0x00040001))
            && (s.kernelDebug <==> SomeNonZero(es, 0x00050001))
            && (s.testSigning <==> SomeNonZero(es, 0x00050003))
            && (s.codeIntegrity == TernaryFalse <==> SomeZero(es, 0x00050002))
            && (s.codeIntegrity == TernaryUnknown <==> !SomeReport(es, 0x00050002))
            && (s.dep == TernaryFalse <==> SomeZero(es, 0x00050004))
            && (s.dep == TernaryUnknown <==> !SomeReport(es, 0x00050004))
  {
    LatchesMean(utf16, es);
    forall typ: uint32
      ensures EverSet(es, typ) <==> SomeNonZero(es, typ)
      ensures EverClear(es, typ) <==> SomeZero(es, typ)
      ensures Reported(es, typ) <==> SomeReport(es, typ)
    {
    }
  }

  /** Which events are acceptable on their own. */
  lemma SaneIs(utf16: Utf16, e: SipaEvent)
    ensures Sane(utf16, e) <==>
              && (e.typ == 0x00020002 || e.typ == 0x00050004 ==> |e.payload| == 8)
              && (e.typ == 0x00020003 ==> |e.payload| == 4)
              && (e.typ == 0x00020005 ==> |e.payload| <= 8 && Uvarint(e.payload).Some?)
              && (e.typ == 0x00040001 || e.typ == 0x00050001 || e.typ == 0x00050002 || e.typ == 0x00050003 ==>
                    |e.payload| == 1)
              && (e.typ == 0x40010002 ==> Elam(utf16, e.payload, NO_ELAM, map[]).ok)
              && (e.typ == 0x40010003 ==> LoadedModule(utf16, e.payload, NO_MODULE).Some?)
  {
  }

  // ----- Loaded modules -----

  /** The fields of the module that an event reports, and the hash it is listed under. */
  predicate Reports(utf16: Utf16, e: SipaEvent, hash: bytes, f: ModuleFields) {
    e.typ == 0x40010003 && LoadedModule(utf16, e.payload, NO_MODULE) == Some(f) && f.hash.GetOr([]) == hash
  }

  predicate ReportsSome(utf16: Utf16, e: SipaEvent, hash: bytes) {
    e.typ == 0x40010003 && LoadedModule(utf16, e.payload, NO_MODULE).Some? &&
    LoadedModule(utf16, e.payload, NO_MODULE).value.hash.GetOr([]) == hash
  }

  /** The entry of a module, given the addresses reported before. */
  function Entry(f: ModuleFields, before: seq<uint64>): WinModuleLoad {
    WinModuleLoad(f.path, f.hash.GetOr([]), (if f.imageBase == 0 then [] else [f.imageBase]) + before,
                  f.imageSize, f.alg, f.validated, f.issuer, f.publisher, f.serial.GetOr([]), f.sha1.GetOr([]))
  }

  lemma ModulesAfter(utf16: Utf16, s: WinState, e: SipaEvent)
    requires Apply(utf16, s, e).Some?
    ensures Apply(utf16, s, e).value.modules ==
            if e.typ != 0x40010003 then s.modules
            else WithModule(s.modules, LoadedModule(utf16, e.payload, NO_MODULE).GetOr(NO_MODULE))
    ensures e.typ == 0x40010003 ==> LoadedModule(utf16, e.payload, NO_MODULE).Some?
  {
    if e.typ == 0x40010003 {
      assert LoadedModule(utf16, e.payload, NO_MODULE).Some?;
    } else {
      OtherModules(utf16, s, e);
    }
  }

  lemma OtherModules(utf16: Utf16, s: WinState, e: SipaEvent)
    requires Apply(utf16, s, e).Some? && e.typ != 0x40010003
    ensures Apply(utf16, s, e).value.modules == s.modules
  {
  }

  lemma EntryAfter(utf16: Utf16, s: WinState, e: SipaEvent, hash: bytes)
    requires Apply(utf16, s, e).Some?
    ensures var t := Apply(utf16, s, e).value;
            if ReportsSome(utf16, e, hash)
            then hash in t.modules &&
                 t.modules[hash] == Entry(LoadedModule(utf16, e.payload, NO_MODULE).value, ImageBases(s.modules, hash))
            else (hash in t.modules <==> hash in s.modules) && (hash in s.modules ==> t.modules[hash] == s.modules[hash])
  {
    ModulesAfter(utf16, s, e);
  }

  /** A module's entry holds the fields of the last report for its hash. */
  lemma {:induction false} ModuleEntry(utf16: Utf16, es: seq<SipaEvent>, i: nat, hash: bytes, f: ModuleFields)
    requires ApplyAll(utf16, INITIAL, es).Some? && i < |es| && Reports(utf16, es[i], hash, f)
    requires forall j | i < j < |es| :: !ReportsSome(utf16, es[j], hash)
    ensures hash in ApplyAll(utf16, INITIAL, es).value.modules
    ensures var m := ApplyAll(utf16, INITIAL, es).value.modules[hash];
            && m.filePath == f.path && m.authenticodeHash == hash && m.imageSize == f.imageSize
            && m.hashAlgorithm == f.alg && m.imageValidated == f.validated
            && m.authorityIssuer == f.issuer && m.authorityPublisher == f.publisher
            && m.authoritySerial == f.serial.GetOr([]) && m.authoritySHA1 == f.sha1.GetOr([])
  {
    var n := |es| - 1;
    var s := LastApplied(utf16, es);
    EntryAfter(utf16, s, es[n], hash);
    if i < n {
      ModuleEntry(utf16, es[..n], i, hash, f);
    }
  }

  /** The address an event reports for a hash; zero for none. */
  function AddressOf(utf16: Utf16, e: SipaEvent, hash: bytes): uint64 {
    if ReportsSome(utf16, e, hash) then LoadedModule(utf16, e.payload, NO_MODULE).value.imageBase else 0
  }

  function Addresses(utf16: Utf16, es: seq<SipaEvent>, hash: bytes): (r: seq<uint64>)
    ensures |r| == |es|
  {
    seq(|es|, k requires 0 <= k < |es| => AddressOf(utf16, es[k], hash))
  }

  function NonZeros(a: seq<uint64>): set<nat> {
    set k: nat | k < |a| && a[k] != 0
  }

  /** The numbers other than zero, last first. */
  function Newest(a: seq<uint64>): seq<uint64> {
    if a == [] then []
    else (if a[|a| - 1] != 0 then [a[|a| - 1]] else []) + Newest(a[..|a| - 1])
  }

  lemma NonZerosMore(a: seq<uint64>, x: uint64)
    ensures NonZeros(a + [x]) == NonZeros(a) + if x != 0 then {|a|} else {}
  {
    var all, more := a + [x], NonZeros(a) + if x != 0 then {|a|} else {};
    assert all[|a|] == x && forall k | 0 <= k < |a| :: all[k] == a[k];
    forall k: nat ensures k in NonZeros(all) <==> k in more {
    }
  }

  lemma NewestMore(a: seq<uint64>, x: uint64)
    ensures Newest(a + [x]) == (if x != 0 then [x] else []) + Newest(a)
  {
    assert (a + [x])[..|a|] == a;
  }

  /** The numbers at these positions, last first. */
  predicate ReadsBack(r: seq<uint64>, a: seq<uint64>, ks: seq<nat>) {
    |r| == |ks| && forall i | 0 <= i < |ks| :: ks[i] < |a| && r[|ks| - 1 - i] == a[ks[i]]
  }

  lemma ReadsBackMore(r: seq<uint64>, a: seq<uint64>, ks: seq<nat>, x: uint64)
    requires ReadsBack(r, a, ks)
    ensures ReadsBack(r, a + [x], ks) && ReadsBack([x] + r, a + [x], ks + [|a|])
  {
  }

  lemma {:induction false} NewestAre(a: seq<uint64>, ks: seq<nat>)
    requires Enumerates(ks, NonZeros(a))
    ensures ReadsBack(Newest(a), a, ks)
  {
    if a == [] {
    } else {
      var front, x := a[..|a| - 1], a[|a| - 1];
      assert a == front + [x];
      NonZerosMore(front, x);
      NewestMore(front, x);
      if x != 0 {
        EnumeratesLast(ks, NonZeros(a), |front|);
        assert NonZeros(a) - {|front|} == NonZeros(front) && ks == ks[..|ks| - 1] + [|front|];
        NewestAre(front, ks[..|ks| - 1]);
        ReadsBackMore(Newest(front), front, ks[..|ks| - 1], x);
      } else {
        assert NonZeros(a) == NonZeros(front) && [] + Newest(front) == Newest(front);
        NewestAre(front, ks);
        ReadsBackMore(Newest(front), front, ks, x);
      }
    }
  }

  lemma BasesMore(utf16: Utf16, es: seq<SipaEvent>, e: SipaEvent, hash: bytes)
    ensures ReportedBases(utf16, es + [e], hash) ==
            (if AddressOf(utf16, e, hash) != 0 then [AddressOf(utf16, e, hash)] else []) + ReportedBases(utf16, es, hash)
  {
    ReportedMore(utf16, es, e, hash);
  }

  lemma {:induction false} BasesAreNewest(utf16: Utf16, es: seq<SipaEvent>, hash: bytes)
    ensures ReportedBases(utf16, es, hash) == Newest(Addresses(utf16, es, hash))
  {
    if es == [] {
    } else {
      var front, e := es[..|es| - 1], es[|es| - 1];
      assert es == front + [e];
      BasesMore(utf16, front, e, hash);
      BasesAreNewest(utf16, front, hash);
      assert Addresses(utf16, es, hash)[..|front|] == Addresses(utf16, front, hash);
    }
  }

  /** Its addresses are those of all reports for its hash, newest first. */
  lemma ModuleAddresses(utf16: Utf16, es: seq<SipaEvent>, hash: bytes, ks: seq<nat>)
    requires ApplyAll(utf16, INITIAL, es).Some? && Enumerates(ks, NonZeros(Addresses(utf16, es, hash)))
    requires hash in ApplyAll(utf16, INITIAL, es).value.modules
    ensures ReadsBack(ApplyAll(utf16, INITIAL, es).value.modules[hash].imageBase, Addresses(utf16, es, hash), ks)
  {
    ModulesMean(utf16, es, hash);
    BasesAreNewest(utf16, es, hash);
    NewestAre(Addresses(utf16, es, hash), ks);
  }

  /** What a field of a module's report sets. */
  lemma ModuleFieldSets(utf16: Utf16, f: ModuleFields, typ: uint32, size: nat, data: bytes)
    requires |data| == Taken(typ, size) && ModuleField(utf16, f, typ, size, data).Some?
    ensures ModuleField(utf16, f, typ, size, data).value ==
            ModuleFields(
              if typ == 0x00070007 then U64(data) else f.imageBase,
              if typ == 0x00070004 then Some(data) else f.hash,
              if typ == 0x00070001 then Text(utf16, data) else f.path,
              if typ == 0x00070002 then U64(data) else f.imageSize,
              if typ == 0x00070003 then U32(data) % 256 else f.alg,
              if typ == 0x0007000A then data == [1] else f.validated,
              if typ == 0x00070005 then Text(utf16, data) else f.issuer,
              if typ == 0x00070008 then Text(utf16, data) else f.publisher,
              if typ == 0x00070006 then Some(data) else f.serial,
              if typ == 0x00070009 then Some(data) else f.sha1)
    ensures typ == 0x00070002 || typ == 0x00070007 ==> |data| == 8
    ensures typ == 0x00070003 ==> |data| == 4
  {
  }

  /** The fields that can be set, by type: those still zero or empty, of the right size. */
  lemma ModuleFieldSettable(utf16: Utf16, f: ModuleFields, typ: uint32, size: nat, data: bytes)
    requires |data| == Taken(typ, size)
    ensures ModuleField(utf16, f, typ, size, data).Some? <==>
              || (typ == 0x00070007 && f.imageBase == 0 && size == 8)
              || (typ == 0x00070004 && f.hash == None && size <= 32)
              || (typ == 0x00070001 && f.path == "")
              || (typ == 0x00070002 && f.imageSize == 0 && size == 8)
              || (typ == 0x00070003 && f.alg == 0 && size == 4 && U32(data) % 256 in {2, 3, 4, 12, 13, 14})
              || (typ == 0x0007000A && !f.validated && size == 1)
              || (typ == 0x00070005 && f.issuer == "")
              || (typ == 0x00070008 && f.publisher == "")
              || (typ == 0x00070006 && f.serial == None && size <= 128)
              || (typ == 0x00070009 && f.sha1 == None && size <= 20)
              || typ == 0x0007000B
  {
  }

  /** Texts are read in whole units of two bytes, other fields whole. */
  lemma TakenIs(typ: uint32, size: nat)
    ensures Taken(typ, size) ==
            if typ == 0x00070001 || typ == 0x00070005 || typ == 0x00070008 || typ == 0x00090001
            then size - size % 2 else size
  {
  }

  /** A report ends with its bytes; fewer than a header are no field. */
  lemma ReportEnds(utf16: Utf16, w: bytes, f: ModuleFields)
    requires |w| < 8
    ensures LoadedModule(utf16, w, f) == if w == [] then Some(f) else None
  {
  }

  /** Without a trailing NUL, of which one is dropped. */
  lemma TextIs(utf16: Utf16, b: bytes, text: string)
    ensures utf16(Units(b)) == text + [0 as char] ==> Text(utf16, b) == text
    ensures utf16(Units(b)) == text && (text == "" || text[|text| - 1] != 0 as char) ==> Text(utf16, b) == text
  {
  }

  lemma {:induction false} UnitsOf(b: bytes, i: nat)
    requires 2 * i + 2 <= |b|
    ensures |Units(b)| == |b| / 2 && Units(b)[i] == Half(b, 2 * i)
    decreases |b|
  {
    HalfAt(b, 0);
    assert b[0..2] == b[..2];
    var more := b[2..];
    assert |Units(b)| == 1 + |Units(more)|;
    if |more| < 2 {
    } else if i == 0 {
      UnitsOf(more, 0);
    } else {
      UnitsOf(more, i - 1);
      assert Half(more, 2 * (i - 1)) == Half(b, 2 * i);
    }
  }

  // ----- Anti-malware drivers -----

  /** What a field of a driver's report sets: each once, the name as long as it is empty. */
  lemma ElamFieldSets(utf16: Utf16, f: ElamFields, typ: uint32, data: bytes)
    ensures ElamField(utf16, f, typ, data).Some? <==>
              || (typ == 0x00090001 && f.name == "") || (typ == 0x00090002 && f.config == None)
              || (typ == 0x00090003 && f.policy == None) || (typ == 0x00090004 && f.measured == None)
    ensures ElamField(utf16, f, typ, data).Some? ==>
              ElamField(utf16, f, typ, data).value ==
              ElamFields(if typ == 0x00090001 then Text(utf16, data) else f.name,
                         if typ == 0x00090004 then Some(data) else f.measured,
                         if typ == 0x00090003 then Some(data) else f.policy,
                         if typ == 0x00090002 then Some(data) else f.config)
  {
  }

  /** A report of a named driver enters its three values; one without a name, or a partial header, is refused. */
  lemma ElamEnds(utf16: Utf16, w: bytes, f: ElamFields, elam: map<string, WinELAM>)
    requires |w| < 8
    ensures Elam(utf16, w, f, elam) ==
            if w == [] && f.name != ""
            then ElamResult(true, [], elam[f.name := WinELAM(f.measured.GetOr([]), f.config.GetOr([]), f.policy.GetOr([]))])
            else ElamResult(false, [], elam)
  {
  }

  lemma MergeMerge<K, V>(a: map<K, V>, b: map<K, V>, c: map<K, V>)
    ensures a + b + c == a + (b + c)
  {
  }

  /** An aggregation adds entries to the table, the same whatever the table holds. */
  lemma {:induction false} ElamAdds(utf16: Utf16, w: bytes, f: ElamFields, elam: map<string, WinELAM>)
    ensures Elam(utf16, w, f, elam).elam == elam + Elam(utf16, w, f, map[]).elam
    decreases |w|
  {
    if |w| < 8 {
      ElamEnds(utf16, w, f, elam);
      ElamEnds(utf16, w, f, map[]);
    } else {
      var typ, size, p := U32(w[..4]), U32(w[4..8]), w[8..];
      if size <= |p| {
        if typ == ELAM_AGGREGATION {
          ElamAdds(utf16, p[..size], NO_ELAM, elam);
          ElamIndependent(utf16, p[..size], NO_ELAM, elam, map[]);
          var inner := Elam(utf16, p[..size], NO_ELAM, map[]);
          var own, rest := inner.elam, inner.rest + p[size..];
          ElamAdds(utf16, rest, f, elam + own);
          ElamAdds(utf16, rest, f, own);
          MergeMerge(elam, own, Elam(utf16, rest, f, map[]).elam);
        } else if ElamField(utf16, f, typ, p[..Taken(typ, size)]).Some? {
          ElamAdds(utf16, p[Taken(typ, size)..], ElamField(utf16, f, typ, p[..Taken(typ, size)]).value, elam);
        }
      }
    }
  }

  /** The drivers an event reports. */
  function DriversIn(utf16: Utf16, e: SipaEvent): map<string, WinELAM> {
    if e.typ == 0x40010002 then Elam(utf16, e.payload, NO_ELAM, map[]).elam else map[]
  }

  lemma DriversAfter(utf16: Utf16, s: WinState, e: SipaEvent)
    requires Apply(utf16, s, e).Some?
    ensures Apply(utf16, s, e).value.elam == s.elam + DriversIn(utf16, e)
  {
    if e.typ == 0x40010002 {
      ElamAdds(utf16, e.payload, NO_ELAM, s.elam);
    } else {
      assert s.elam + map[] == s.elam;
    }
  }

  /** Later reports replace the entries of earlier ones. */
  function AllDrivers(utf16: Utf16, es: seq<SipaEvent>): map<string, WinELAM> {
    if es == [] then map[] else AllDrivers(utf16, es[..|es| - 1]) + DriversIn(utf16, es[|es| - 1])
  }

  lemma {:induction false} DriversAre(utf16: Utf16, es: seq<SipaEvent>)
    requires ApplyAll(utf16, INITIAL, es).Some?
    ensures ApplyAll(utf16, INITIAL, es).value.elam == AllDrivers(utf16, es)
  {
    if es == [] {
    } else {
      var s := LastApplied(utf16, es);
      DriversAfter(utf16, s, es[|es| - 1]);
      DriversAre(utf16, es[..|es| - 1]);
    }
  }

  lemma {:induction false} LastDriver(utf16: Utf16, es: seq<SipaEvent>, name: string, i: nat)
    requires i < |es| && name in DriversIn(utf16, es[i])
    requires forall j | i < j < |es| :: name !in DriversIn(utf16, es[j])
    ensures name in AllDrivers(utf16, es) && AllDrivers(utf16, es)[name] == DriversIn(utf16, es[i])[name]
  {
    var n := |es| - 1;
    if i < n {
      LastDriver(utf16, es[..n], name, i);
    }
  }

  lemma {:induction false} NoDriver(utf16: Utf16, es: seq<SipaEvent>, name: string)
    requires forall e | e in es :: name !in DriversIn(utf16, e)
    ensures name !in AllDrivers(utf16, es)
  {
    if es == [] {
    } else {
      var n := |es| - 1;
      assert es[n] in es && forall e | e in es[..n] :: e in es;
      NoDriver(utf16, es[..n], name);
    }
  }

  /** A driver has the values of the last event that reports it, and is not listed without one. */
  lemma DriversMean(utf16: Utf16, es: seq<SipaEvent>, name: string)
    requires ApplyAll(utf16, INITIAL, es).Some?
    ensures var drivers := ApplyAll(utf16, INITIAL, es).value.elam;
            forall i | 0 <= i < |es| && name in DriversIn(utf16, es[i]) &&
                       (forall j | i < j < |es| :: name !in DriversIn(utf16, es[j])) ::
              name in drivers && drivers[name] == DriversIn(utf16, es[i])[name]
    ensures (forall e | e in es :: name !in DriversIn(utf16, e)) ==> name !in ApplyAll(utf16, INITIAL, es).value.elam
  {
    DriversAre(utf16, es);
    forall i | 0 <= i < |es| && name in DriversIn(utf16, es[i]) &&
               (forall j | i < j < |es| :: name !in DriversIn(utf16, es[j]))
      ensures name in AllDrivers(utf16, es) && AllDrivers(utf16, es)[name] == DriversIn(utf16, es[i])[name]
    {
      LastDriver(utf16, es, name, i);
    }
    if forall e | e in es :: name !in DriversIn(utf16, e) {
      NoDriver(utf16, es, name);
    }
  }

  // ----- Which events count -----

  /** ID, length and data; what follows is not looked at. */
  lemma TaggedIff(d: bytes, id: uint32, block: bytes)
    ensures ParseTagged(d) == Some((id, block)) <==>
              && |d| >= 8 && id == Word(d, 0) && 8 + Word(d, 4) <= |d| && block == d[8..8 + Word(d, 4)]
  {
    if |d| >= 8 {
      WordAt(d, 0);
      WordAt(d, 4);
      assert d[..4] == d[0..4];
    }
  }

  /** An event of a block: type, length and data, and then the others. */
  lemma BlockOf(pcr: int, b: bytes)
    requires b != []
    ensures Split(pcr, b).Some? <==> |b| >= 8 && 8 + Word(b, 4) <= |b| && Split(pcr, b[8 + Word(b, 4)..]).Some?
    ensures Split(pcr, b).Some? ==>
              Split(pcr, b).value ==
              [SipaEvent(pcr, Word(b, 0), b[8..8 + Word(b, 4)])] + Split(pcr, b[8 + Word(b, 4)..]).value
    ensures Split(pcr, []) == Some([])
  {
    if |b| >= 8 {
      WordAt(b, 0);
      WordAt(b, 4);
      assert b[..4] == b[0..4];
    }
  }

  /** No separator of this PCR before position i. */
  predicate StillOpen(events: seq<Event>, i: nat)
    requires i < |events|
  {
    forall k | 0 <= k < i :: !(events[k].index == events[i].index && events[k].typ == 4)
  }

  predicate Matching(env: WinEnv, e: Event) {
    e.digest == env.hash(SHA1, e.data) || e.digest == env.hash(SHA256, e.data)
  }

  /** A measured tagged event whose data is a container of SIPA events. */
  predicate TagFine(env: WinEnv, e: Event) {
    && ParseTagged(e.data).Some? && Matching(env, e)
    && IsContainer(ParseTagged(e.data).value.0) && Split(e.index, ParseTagged(e.data).value.1).Some?
  }

  /**
   Tagged events behind their PCR's separator are passed over, others must be containers; a
   separator stands once in each PCR; there are no other events.
   */
  predicate FineAt(env: WinEnv, events: seq<Event>, i: nat)
    requires i < |events|
  {
    if events[i].typ == 6 then StillOpen(events, i) ==> TagFine(env, events[i])
    else events[i].typ == 4 && StillOpen(events, i) && events[i].data == Ascii("WBCL") && Matching(env, events[i])
  }

  /** The SIPA events that the event at position i contributes. */
  function Contributed(events: seq<Event>, i: nat): seq<SipaEvent>
    requires i < |events|
  {
    var e := events[i];
    if (e.index == 12 || e.index == 13) && e.typ == 6 && StillOpen(events, i) && ParseTagged(e.data).Some? &&
       Split(e.index, ParseTagged(e.data).value.1).Some?
    then Split(e.index, ParseTagged(e.data).value.1).value else []
  }

  lemma SeparatedIs(events: seq<Event>, i: nat)
    requires i < |events|
    ensures Separated(events[..i], events[i].index) <==> !StillOpen(events, i)
  {
    if !StillOpen(events, i) {
      var k :| 0 <= k < i && events[k].index == events[i].index && events[k].typ == 4;
      assert events[..i][k] in events[..i];
    }
  }

  lemma ContributionIs(env: WinEnv, events: seq<Event>, i: nat)
    requires i < |events| && (events[i].index == 12 || events[i].index == 13)
    ensures Contribution(env, events[..i], events[i]) ==
            if FineAt(env, events, i) then Some(Contributed(events, i)) else None
  {
    SeparatedIs(events, i);
    DigestMeans(env.hash, events[i], events[i].data);
  }

  /** The events of PCR 12 and 13 are all fine. */
  predicate AllFine(env: WinEnv, events: seq<Event>) {
    forall i | 0 <= i < |events| && (events[i].index == 12 || events[i].index == 13) :: FineAt(env, events, i)
  }

  lemma FineBefore(env: WinEnv, events: seq<Event>, i: nat)
    requires i < |events| - 1
    ensures FineAt(env, events[..|events| - 1], i) <==> FineAt(env, events, i)
  {
    var front := events[..|events| - 1];
    assert forall k | 0 <= k <= i :: front[k] == events[k];
    assert StillOpen(front, i) <==> StillOpen(events, i);
  }

  /** The contributions of all events, in order. */
  function AllContributed(events: seq<Event>): seq<SipaEvent> {
    if events == [] then [] else AllContributed(events[..|events| - 1]) + Contributed(events, |events| - 1)
  }

  lemma AllFineMore(env: WinEnv, events: seq<Event>)
    requires events != []
    ensures var n := |events| - 1;
            AllFine(env, events) <==>
              AllFine(env, events[..n]) && (events[n].index == 12 || events[n].index == 13 ==> FineAt(env, events, n))
  {
    var n := |events| - 1;
    forall i | 0 <= i < n ensures FineAt(env, events[..n], i) <==> FineAt(env, events, i) {
      FineBefore(env, events, i);
    }
  }

  lemma StreamAfter(env: WinEnv, events: seq<Event>)
    requires events != []
    ensures var n := |events| - 1;
            Stream(env, events) ==
            if Stream(env, events[..n]) == None ||
               ((events[n].index == 12 || events[n].index == 13) && !FineAt(env, events, n))
            then None else Some(Stream(env, events[..n]).value + Contributed(events, n))
  {
    var n := |events| - 1;
    assert events == events[..n] + [events[n]];
    StreamMore(env, events[..n], events[n]);
    if events[n].index == 12 || events[n].index == 13 {
      ContributionIs(env, events, n);
    } else if Stream(env, events[..n]).Some? {
      assert Stream(env, events[..n]).value + [] == Stream(env, events[..n]).value;
    }
  }

  /** A log's SIPA events are those of its containers, in order, when every event of the two PCRs is fine. */
  lemma {:induction false} StreamIff(env: WinEnv, events: seq<Event>)
    ensures Stream(env, events) == if AllFine(env, events) then Some(AllContributed(events)) else None
  {
    if events == [] {
    } else {
      var n := |events| - 1;
      StreamIff(env, events[..n]);
      AllFineMore(env, events);
      StreamAfter(env, events);
    }
  }

  /** The state is that of all contributed events, applied in order to the initial one. */
  lemma VerdictIs(env: WinEnv, events: seq<Event>)
    ensures WinVerdict(env, events) ==
            if AllFine(env, events) then ApplyAll(env.utf16, INITIAL, AllContributed(events)) else None
    ensures INITIAL == WinState(false, 0, map[], map[], false, false, TernaryUnknown, TernaryUnknown, false, [])
  {
    StreamIff(env, events);
  }
}
