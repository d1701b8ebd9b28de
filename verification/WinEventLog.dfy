/**
 Windows boot configuration read from the tagged events of PCR 12 and PCR 13
 (attest/win_events.go).
 */
module WinEventLog {
  import opened Bytes
  import opened Hashing
  import opened Replay
  import opened UefiEvents
  import opened SipaReaders

  const BOOT_COUNTER: uint32 := 0x00020002
  const TRANSFER_CONTROL: uint32 := 0x00020003
  const BITLOCKER_UNLOCK: uint32 := 0x00020005
  const BOOT_DEBUGGING: uint32 := 0x00040001
  const OS_KERNEL_DEBUG: uint32 := 0x00050001
  const CODE_INTEGRITY: uint32 := 0x00050002
  const TEST_SIGNING: uint32 := 0x00050003
  const DATA_EXECUTION_PREVENTION: uint32 := 0x00050004

  datatype Ternary = TernaryUnknown | TernaryTrue | TernaryFalse

  datatype WinModuleLoad = WinModuleLoad(
    filePath: string, authenticodeHash: bytes, imageBase: seq<uint64>, imageSize: uint64, hashAlgorithm: uint32,
    imageValidated: bool, authorityIssuer: string, authorityPublisher: string,
    authoritySerial: bytes, authoritySHA1: bytes)

  /** The contents of WinEvents; modules are found by their authenticode hash. */
  datatype WinState = WinState(
    coldBoot: bool, bootCount: uint64, modules: map<bytes, WinModuleLoad>, elam: map<string, WinELAM>,
    bootDebugging: bool, kernelDebug: bool, dep: Ternary, codeIntegrity: Ternary, testSigning: bool,
    bitlocker: seq<byte>)

  const INITIAL := WinState(false, 0, map[], map[], false, false, TernaryUnknown, TernaryUnknown, false, [])

  /** One SIPA event of a block, with the PCR of the block. */
  datatype SipaEvent = SipaEvent(pcr: int, typ: uint32, payload: bytes)

  // ----- What one SIPA event does -----

  /** True until the first report to the contrary. */
  function Latched(t: Ternary, isSet: bool): Ternary {
    if !isSet then TernaryFalse else if t == TernaryUnknown then TernaryTrue else t
  }

  /** binary.Uvarint on at most eight bytes, which cannot overflow. */
  function Uvarint(b: bytes): Option<nat> {
    if b == [] then None
    else if b[0] < 0x80 then Some(b[0])
    else
      match Uvarint(b[1..])
      case None => None
      case Some(n) => Some(b[0] - 0x80 + 0x80 * n)
  }

  predicate IsBooleanByte(typ: uint32) {
    typ == OS_KERNEL_DEBUG || typ == CODE_INTEGRITY || typ == BOOT_DEBUGGING || typ == TEST_SIGNING
  }

  predicate NonZero(b: bytes) {
    exists x | x in b :: x != 0
  }

  function WithBoolean(s: WinState, typ: uint32, isSet: bool): WinState {
    if typ == OS_KERNEL_DEBUG then s.(kernelDebug := s.kernelDebug || isSet)
    else if typ == BOOT_DEBUGGING then s.(bootDebugging := s.bootDebugging || isSet)
    else if typ == TEST_SIGNING then s.(testSigning := s.testSigning || isSet)
    else if typ == CODE_INTEGRITY then s.(codeIntegrity := Latched(s.codeIntegrity, isSet))
    else if typ == DATA_EXECUTION_PREVENTION then s.(dep := Latched(s.dep, isSet))
    else s
  }

  /** The addresses reported so far for the module with this hash, newest first. */
  function ImageBases(modules: map<bytes, WinModuleLoad>, hash: bytes): seq<uint64> {
    if hash in modules then modules[hash].imageBase else []
  }

  function WithModule(modules: map<bytes, WinModuleLoad>, f: ModuleFields): map<bytes, WinModuleLoad> {
    var hash := f.hash.GetOr([]);
    modules[hash := WinModuleLoad(
      f.path, hash, (if f.imageBase != 0 then [f.imageBase] else []) + ImageBases(modules, hash),
      f.imageSize, f.alg, f.validated, f.issuer, f.publisher, f.serial.GetOr([]), f.sha1.GetOr([]))]
  }

  /** The state after a SIPA event; none when the event is malformed or contradicts the boot counter. */
  function Apply(utf16: Utf16, s: WinState, e: SipaEvent): Option<WinState> {
    var p := e.payload;
    if e.typ == ELAM_AGGREGATION then
      var r := Elam(utf16, p, NO_ELAM, s.elam);
      if r.ok then Some(s.(elam := r.elam)) else None
    else if e.typ == LOADED_MODULE_AGGREGATION then
      match LoadedModule(utf16, p, NO_MODULE)
      case None => None
      case Some(f) => Some(s.(modules := WithModule(s.modules, f)))
    else if e.typ == BOOT_COUNTER then
      if |p| != 8 || (s.bootCount > 0 && s.bootCount != U64(p)) then None else Some(s.(bootCount := U64(p)))
    else if e.typ == BITLOCKER_UNLOCK then
      if |p| > 8 || Uvarint(p) == None then None
      else if e.pcr == 13 then Some(s)
      else Some(s.(bitlocker := s.bitlocker + [Uvarint(p).value % 0x100]))
    else if e.typ == TRANSFER_CONTROL then
      if |p| != 4 then None else Some(s.(coldBoot := U32(p) == 1))
    else if IsBooleanByte(e.typ) then
      if |p| != 1 then None else Some(WithBoolean(s, e.typ, NonZero(p)))
    else if e.typ == DATA_EXECUTION_PREVENTION then
      if |p| != 8 then None else Some(WithBoolean(s, e.typ, NonZero(p)))
    else Some(s)
  }

  function ApplyAll(utf16: Utf16, s: WinState, es: seq<SipaEvent>): Option<WinState> {
    if es == [] then Some(s)
    else
      match ApplyAll(utf16, s, es[..|es| - 1])
      case None => None
      case Some(next) => Apply(utf16, next, es[|es| - 1])
  }

  // ----- Blocks and events -----

  /** The plain split of a block into type, length and value. */
  function Split(pcr: int, b: bytes): Option<seq<SipaEvent>>
    decreases |b|
  {
    if b == [] then Some([])
    else if |b| < 8 || U32(b[4..8]) > |b| - 8 then None
    else
      var size := U32(b[4..8]);
      Before([SipaEvent(pcr, U32(b[..4]), b[8..8 + size])], Split(pcr, b[8 + size..]))
  }

  /** The state after a block: its split, applied in order. */
  function Block(utf16: Utf16, s: WinState, pcr: int, b: bytes): Option<WinState> {
    match Split(pcr, b)
    case None => None
    case Some(es) => ApplyAll(utf16, s, es)
  }

  /** evt.ID & sipaTypeMask == sipaContainer */
  predicate IsContainer(id: uint32) {
    id / 0x1_0000 % 0x10 == 1
  }

  /** TCG_PCClientTaggedEventStruct: ID, length, data. */
  function ParseTagged(d: bytes): Option<(uint32, bytes)> {
    if |d| < 8 then None
    else
      var n := U32(d[4..8]);
      if n > |d| || |d| - 8 < n then None else Some((U32(d[..4]), d[8..8 + n]))
  }

  datatype WinEnv = WinEnv(hash: HashFunction, utf16: Utf16)

  predicate Separated(before: seq<Event>, pcr: int) {
    exists e | e in before :: e.index == pcr && e.typ == SEPARATOR
  }

  /** The SIPA events an event of PCR 12 or 13 contributes behind the given events. */
  function Contribution(env: WinEnv, before: seq<Event>, e: Event): Option<seq<SipaEvent>> {
    if e.typ == EVENT_TAG then
      if Separated(before, e.index) then Some([])
      else
        match ParseTagged(e.data)
        case None => None
        case Some(tagged) =>
          if !DigestEquals(env.hash, e, e.data) || !IsContainer(tagged.0) then None else Split(e.index, tagged.1)
    else if e.typ == SEPARATOR && !Separated(before, e.index) && e.data == Ascii("WBCL") && DigestEquals(env.hash, e, e.data)
    then Some([])
    else None
  }

  predicate Relevant(e: Event) {
    e.index == 12 || e.index == 13
  }

  /** All SIPA events that count, in order; none when an event is not acceptable. */
  function Stream(env: WinEnv, events: seq<Event>): Option<seq<SipaEvent>> {
    if events == [] then Some([])
    else
      var front, e := events[..|events| - 1], events[|events| - 1];
      match Stream(env, front)
      case None => None
      case Some(s) => if Relevant(e) then Before(s, Contribution(env, front, e)) else Some(s)
  }

  function WinVerdict(env: WinEnv, events: seq<Event>): Option<WinState> {
    match Stream(env, events)
    case None => None
    case Some(es) => ApplyAll(env.utf16, INITIAL, es)
  }

  // ----- The reading loops -----

  lemma {:induction false} ApplyAllAppend(utf16: Utf16, s: WinState, a: seq<SipaEvent>, b: seq<SipaEvent>)
    ensures ApplyAll(utf16, s, a + b) ==
            match ApplyAll(utf16, s, a)
            case None => None
            case Some(next) => ApplyAll(utf16, next, b)
  {
    if b == [] {
      assert a + b == a;
    } else {
      var front, e := b[..|b| - 1], b[|b| - 1];
      assert (a + b)[..|a + b| - 1] == a + front;
      ApplyAllAppend(utf16, s, a, front);
    }
  }

  lemma ApplyOne(utf16: Utf16, s: WinState, e: SipaEvent)
    ensures ApplyAll(utf16, s, [e]) == Apply(utf16, s, e)
  {
  }

  lemma BlockStep(utf16: Utf16, s: WinState, pcr: int, b: bytes)
    requires b != []
    ensures Block(utf16, s, pcr, b) ==
            if |b| < 8 || U32(b[4..8]) > |b| - 8 then None
            else
              var size := U32(b[4..8]);
              match Apply(utf16, s, SipaEvent(pcr, U32(b[..4]), b[8..8 + size]))
              case None => None
              case Some(next) => Block(utf16, next, pcr, b[8 + size..])
  {
    if |b| >= 8 && U32(b[4..8]) <= |b| - 8 {
      var size := U32(b[4..8]);
      var e, rest := SipaEvent(pcr, U32(b[..4]), b[8..8 + size]), Split(pcr, b[8 + size..]);
      ApplyOne(utf16, s, e);
      if rest.Some? {
        ApplyAllAppend(utf16, s, [e], rest.value);
      }
    }
  }

  /** The answers of readSIPAEvent: handled, unknown but harmless, or an error. */
  datatype SipaOutcome = Handled | UnknownEvent | Rejected

  class WinEvents {
    var ColdBoot: bool
    var BootCount: uint64
    var LoadedModules: map<bytes, WinModuleLoad>
    var ELAM: map<string, WinELAM>
    var BootDebuggingEnabled: bool
    var KernelDebugEnabled: bool
    var DEPEnabled: Ternary
    var CodeIntegrityEnabled: Ternary
    var TestSigningEnabled: bool
    var BitlockerUnlocks: seq<byte>

    constructor ()
      ensures Contents() == INITIAL
    {
      ColdBoot, BootCount, LoadedModules, ELAM := false, 0, map[], map[];
      BootDebuggingEnabled, KernelDebugEnabled, TestSigningEnabled := false, false, false;
      DEPEnabled, CodeIntegrityEnabled, BitlockerUnlocks := TernaryUnknown, TernaryUnknown, [];
    }

    ghost function Contents(): WinState
      reads this
    {
      WinState(ColdBoot, BootCount, LoadedModules, ELAM, BootDebuggingEnabled, KernelDebugEnabled,
               DEPEnabled, CodeIntegrityEnabled, TestSigningEnabled, BitlockerUnlocks)
    }

    method ReadBooleanEvent(utf16: Utf16, r: Buffer, pcr: int, typ: uint32, size: nat) returns (ok: bool)
      requires IsBooleanByte(typ) || typ == DATA_EXECUTION_PREVENTION
      modifies this, r
      ensures Performs(utf16, r, pcr, typ, size, ok)
    {
      if size != if IsBooleanByte(typ) then 1 else 8 {
        return false;
      }
      var data := r.ReadFull(size);
      if data == None {
        return false;
      }
      var isSet := exists x | x in data.value :: x != 0;
      if typ == OS_KERNEL_DEBUG {
        KernelDebugEnabled := KernelDebugEnabled || isSet;
      } else if typ == BOOT_DEBUGGING {
        BootDebuggingEnabled := BootDebuggingEnabled || isSet;
      } else if typ == TEST_SIGNING {
        TestSigningEnabled := TestSigningEnabled || isSet;
      } else if typ == CODE_INTEGRITY {
        if isSet && CodeIntegrityEnabled == TernaryUnknown {
          CodeIntegrityEnabled := TernaryTrue;
        } else if !isSet {
          CodeIntegrityEnabled := TernaryFalse;
        }
      } else {
        if isSet && DEPEnabled == TernaryUnknown {
          DEPEnabled := TernaryTrue;
        } else if !isSet {
          DEPEnabled := TernaryFalse;
        }
      }
      ok := true;
    }

    method ReadBootCounter(utf16: Utf16, r: Buffer, pcr: int, size: nat) returns (ok: bool)
      modifies this, r
      ensures Performs(utf16, r, pcr, BOOT_COUNTER, size, ok)
    {
      if size != 8 {
        return false;
      }
      var data := r.ReadFull(8);
      if data == None {
        return false;
      }
      var i := U64(data.value);
      if BootCount > 0 && BootCount != i {
        return false;
      }
      BootCount := i;
      ok := true;
    }

    method ReadTransferControl(utf16: Utf16, r: Buffer, pcr: int, size: nat) returns (ok: bool)
      modifies this, r
      ensures Performs(utf16, r, pcr, TRANSFER_CONTROL, size, ok)
    {
      if size != 4 {
        return false;
      }
      var data := r.ReadFull(4);
      if data == None {
        return false;
      }
      ColdBoot := U32(data.value) == 1;
      ok := true;
    }

    /** Unlocks are recorded in both PCRs; those of PCR 13 are checked and dropped. */
    method ReadBitlockerUnlock(utf16: Utf16, r: Buffer, pcr: int, size: nat) returns (ok: bool)
      modifies this, r
      ensures Performs(utf16, r, pcr, BITLOCKER_UNLOCK, size, ok)
    {
      if size > 8 {
        return false;
      }
      var data := r.ReadFull(size);
      if data == None {
        return false;
      }
      var i := Uvarint(data.value);
      if i == None {
        return false;
      }
      if pcr != 13 {
        BitlockerUnlocks := BitlockerUnlocks + [i.value % 0x100];
      }
      ok := true;
    }

    method ReadLoadedModuleAggregation(utf16: Utf16, r: Buffer, pcr: int, size: nat) returns (ok: bool)
      modifies this, r
      ensures Performs(utf16, r, pcr, LOADED_MODULE_AGGREGATION, size, ok)
    {
      var m := ReadLoadedModule(utf16, r, size);
      if m == None {
        return false;
      }
      LoadedModules := WithModule(LoadedModules, m.value);
      ok := true;
    }

    /** The event was performed on the state and consumed exactly, or refused. */
    twostate predicate Performs(utf16: Utf16, r: Buffer, pcr: int, typ: uint32, size: nat, ok: bool)
      reads this, r
    {
      if size > |old(r.unread)| then !ok
      else
        var next := Apply(utf16, old(Contents()), SipaEvent(pcr, typ, old(r.unread)[..size]));
        && (ok <==> next.Some?)
        && (ok ==> Contents() == next.value && r.unread == old(r.unread)[size..])
    }

    /**
     readELAMAggregation: an accepted aggregation is consumed whole; whatever happens inside a
     nested one, exactly what it consumed is missing from the outer one.
     */
    method ReadELAMAggregation(utf16: Utf16, r: Buffer, size: nat) returns (ok: bool)
      modifies this`ELAM, r
      ensures |r.unread| <= |old(r.unread)| <= |r.unread| + size
      ensures size > |old(r.unread)| ==> !ok
      ensures size <= |old(r.unread)| ==>
                ElamResult(ok, r.unread, ELAM) == ElamOn(utf16, old(r.unread), size, NO_ELAM, old(ELAM))
      decreases size
    {
      ghost var all := |r.unread|;
      ghost var result := if size <= all then ElamOn(utf16, r.unread, size, NO_ELAM, ELAM) else ElamResult(false, [], ELAM);
      var n, f := size, NO_ELAM;
      while n > 0
        invariant 0 <= n && |r.unread| <= all && all - |r.unread| == size - n
        invariant size <= all ==> n <= |r.unread| && result == ElamOn(utf16, r.unread, n, f, ELAM)
        decreases n
      {
        if 8 <= n <= |r.unread| {
          ElamStep(utf16, r.unread, n, f, ELAM);
        }
        var h;
        h, n := ReadHeader(r, n);
        if h == None {
          return false;
        }
        var typ, fieldSize := h.value.0, h.value.1;
        if fieldSize > n {
          return false;
        }
        if typ == ELAM_AGGREGATION {
          var before := |r.unread|;
          var _ := ReadELAMAggregation(utf16, r, fieldSize);
          n := n - (before - |r.unread|);
          if n == 0 {
            return true;
          }
        } else {
          var next;
          next, n := ReadElamField(utf16, r, n, f, typ, fieldSize);
          if next == None {
            return false;
          }
          f := next.value;
        }
      }
      if f.name == "" {
        return false;
      }
      ELAM := ELAM[f.name := WinELAM(f.measured.GetOr([]), f.config.GetOr([]), f.policy.GetOr([]))];
      ok := true;
    }

    method ReadSIPAEvent(utf16: Utf16, r: Buffer, pcr: int) returns (outcome: SipaOutcome)
      modifies this, r
      ensures var b := old(r.unread);
              if |b| < 8 || U32(b[4..8]) > |b| - 8 then outcome == Rejected
              else
                var size := U32(b[4..8]);
                var next := Apply(utf16, old(Contents()), SipaEvent(pcr, U32(b[..4]), b[8..8 + size]));
                && (outcome == Rejected <==> next == None)
                && (outcome != Rejected ==> Contents() == next.value && r.unread == b[8 + size..])
    {
      ghost var b := r.unread;
      var h, _ := ReadHeader(r, 8);
      if h == None {
        return Rejected;
      }
      var typ, size, ok := h.value.0, h.value.1, false;
      if size <= |r.unread| {
        assert b[8..][..size] == b[8..8 + size] && b[8..][size..] == b[8 + size..];
      }
      if typ == ELAM_AGGREGATION {
        ok := ReadELAMAggregation(utf16, r, size);
      } else if typ == LOADED_MODULE_AGGREGATION {
        ok := ReadLoadedModuleAggregation(utf16, r, pcr, size);
      } else if typ == BOOT_COUNTER {
        ok := ReadBootCounter(utf16, r, pcr, size);
      } else if typ == BITLOCKER_UNLOCK {
        ok := ReadBitlockerUnlock(utf16, r, pcr, size);
      } else if typ == TRANSFER_CONTROL {
        ok := ReadTransferControl(utf16, r, pcr, size);
      } else if IsBooleanByte(typ) || typ == DATA_EXECUTION_PREVENTION {
        ok := ReadBooleanEvent(utf16, r, pcr, typ, size);
      } else {
        if size > |r.unread| {
          return Rejected;
        }
        var _ := r.ReadFull(size);
        return UnknownEvent;
      }
      outcome := if ok then Handled else Rejected;
    }

    /** The loop of readWinEventBlock: the stream of SIPA events is the plain split of the block. */
    method ReadWinEventBlock(utf16: Utf16, id: uint32, data: bytes, pcr: int) returns (ok: bool)
      modifies this
      ensures ok <==> IsContainer(id) && Block(utf16, old(Contents()), pcr, data).Some?
      ensures ok ==> Contents() == Block(utf16, old(Contents()), pcr, data).value
    {
      if !IsContainer(id) {
        return false;
      }
      var r := new Buffer(data);
      while |r.unread| > 0
        invariant Block(utf16, old(Contents()), pcr, data) == Block(utf16, Contents(), pcr, r.unread)
        decreases |r.unread|
      {
        BlockStep(utf16, Contents(), pcr, r.unread);
        var outcome := ReadSIPAEvent(utf16, r, pcr);
        if outcome == Rejected {
          return false;
        }
      }
      ok := true;
    }
  }

  // ----- The event loop -----

  method ParseTaggedEventData(d: bytes) returns (tagged: Option<(uint32, bytes)>)
    ensures tagged == ParseTagged(d)
  {
    var r := new Buffer(d);
    var h, _ := ReadHeader(r, 8);
    if h == None || h.value.1 > |d| {
      return None;
    }
    var data := r.ReadFull(h.value.1);
    if data == None {
      return None;
    }
    assert data.value == d[8..8 + h.value.1];
    tagged := Some((h.value.0, data.value));
  }

  lemma SeparatedMore(before: seq<Event>, e: Event, pcr: int)
    ensures Separated(before + [e], pcr) <==> Separated(before, pcr) || (e.index == pcr && e.typ == SEPARATOR)
  {
  }

  lemma StreamMore(env: WinEnv, events: seq<Event>, e: Event)
    ensures Stream(env, events + [e]) ==
            match Stream(env, events)
            case None => None
            case Some(s) => if Relevant(e) then Before(s, Contribution(env, events, e)) else Some(s)
  {
  }

  /** One event of PCR 12 or 13: separators and tagged events, nothing else. */
  method HandleEvent(env: WinEnv, out: WinEvents, seenSeparator: bool, e: Event, ghost before: seq<Event>)
    returns (ok: bool)
    requires seenSeparator == Separated(before, e.index)
    modifies out
    ensures ok <==> (var c := Contribution(env, before, e);
                     c.Some? && ApplyAll(env.utf16, old(out.Contents()), c.value).Some?)
    ensures ok ==> Some(out.Contents()) ==
                     ApplyAll(env.utf16, old(out.Contents()), Contribution(env, before, e).value)
  {
    if !Known(e.typ) {
      return false;
    }
    var digestVerify := DigestEquals(env.hash, e, e.data);
    if e.typ == EVENT_TAG {
      if seenSeparator {
        return true;
      }
      var tagged := ParseTaggedEventData(e.data);
      if tagged == None || !digestVerify {
        return false;
      }
      ok := out.ReadWinEventBlock(env.utf16, tagged.value.0, tagged.value.1, e.index);
    } else {
      ok := e.typ == SEPARATOR && !seenSeparator && e.data == Ascii("WBCL") && digestVerify;
    }
  }

  /** The verdict on a run, given what has been read of it. */
  lemma {:induction false} RejectionStays(env: WinEnv, events: seq<Event>, n: nat)
    requires n <= |events| && WinVerdict(env, events[..n]) == None
    ensures WinVerdict(env, events) == None
    decreases |events|
  {
    if n == |events| {
      assert events[..n] == events;
    } else {
      var front := events[..|events| - 1];
      assert events[..n] == front[..n];
      RejectionStays(env, front, n);
      VerdictMore(env, front, events[|events| - 1]);
      assert events == front + [events[|events| - 1]];
    }
  }

  lemma VerdictMore(env: WinEnv, events: seq<Event>, e: Event)
    ensures WinVerdict(env, events + [e]) ==
            if WinVerdict(env, events) == None || !Relevant(e) then WinVerdict(env, events)
            else
              match Contribution(env, events, e)
              case None => None
              case Some(c) => ApplyAll(env.utf16, WinVerdict(env, events).value, c)
  {
    StreamMore(env, events, e);
    if Stream(env, events).Some? && Relevant(e) && Contribution(env, events, e).Some? {
      ApplyAllAppend(env.utf16, INITIAL, Stream(env, events).value, Contribution(env, events, e).value);
    }
  }

  method ParseWinEvents(env: WinEnv, events: seq<Event>) returns (r: Option<WinEvents>)
    ensures r.Some? <==> WinVerdict(env, events).Some?
    ensures r.Some? ==> fresh(r.value) && r.value.Contents() == WinVerdict(env, events).value
  {
    var out := new WinEvents();
    var seen12, seen13, i := false, false, 0;
    while i < |events|
      invariant 0 <= i <= |events|
      invariant WinVerdict(env, events[..i]) == Some(out.Contents())
      invariant seen12 == Separated(events[..i], 12) && seen13 == Separated(events[..i], 13)
    {
      var e := events[i];
      assert events[..i + 1] == events[..i] + [e];
      VerdictMore(env, events[..i], e);
      SeparatedMore(events[..i], e, 12);
      SeparatedMore(events[..i], e, 13);
      if e.index == 12 || e.index == 13 {
        var ok := HandleEvent(env, out, if e.index == 12 then seen12 else seen13, e, events[..i]);
        if !ok {
          RejectionStays(env, events, i + 1);
          return None;
        }
        if e.typ == SEPARATOR && e.index == 12 {
          seen12 := true;
        } else if e.typ == SEPARATOR {
          seen13 := true;
        }
      }
      i := i + 1;
    }
    assert events[..i] == events;
    r := Some(out);
  }
}
