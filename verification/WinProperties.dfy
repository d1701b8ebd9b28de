/**
 What the Windows boot state says of all the SIPA events that count, and which events
 count (attest/win_events.go).
 */
module WinProperties {
  import opened Bytes
  import opened Replay
  import opened Sorting
  import opened UefiEvents
  import opened SipaReaders
  import opened WinEventLog

  // ----- Framing -----

  function Framed(e: SipaEvent): bytes
    requires |e.payload| < TWO_32
  {
    Put32(e.typ) + Put32(|e.payload|) + e.payload
  }

  function AllFramed(es: seq<SipaEvent>): bytes
    requires forall e | e in es :: |e.payload| < TWO_32
  {
    if es == [] then [] else Framed(es[0]) + AllFramed(es[1..])
  }

  lemma AllFramedCons(e: SipaEvent, rest: seq<SipaEvent>)
    requires |e.payload| < TWO_32 && forall x | x in rest :: |x.payload| < TWO_32
    ensures forall x | x in [e] + rest :: |x.payload| < TWO_32
    ensures AllFramed([e] + rest) == Framed(e) + AllFramed(rest)
  {
  }

  lemma FramedHead(pcr: int, b: bytes)
    requires |b| >= 8 && U32(b[4..8]) <= |b| - 8
    ensures var size := U32(b[4..8]);
            b == Framed(SipaEvent(pcr, U32(b[..4]), b[8..8 + size])) + b[8 + size..]
  {
    PutU32(b[..4]);
    PutU32(b[4..8]);
  }

  /** An accepted block is exactly its events, each of 8 bytes and the announced size, one behind the other. */
  lemma {:induction false} SplitIsFraming(pcr: int, b: bytes)
    requires Split(pcr, b).Some?
    ensures forall e | e in Split(pcr, b).value :: |e.payload| < TWO_32 && e.pcr == pcr
    ensures AllFramed(Split(pcr, b).value) == b
    decreases |b|
  {
    if b == [] {
    } else {
      var size := U32(b[4..8]);
      var e, tail := SipaEvent(pcr, U32(b[..4]), b[8..8 + size]), b[8 + size..];
      SplitIsFraming(pcr, tail);
      FramedHead(pcr, b);
      AllFramedCons(e, Split(pcr, tail).value);
      assert Split(pcr, b).value == [e] + Split(pcr, tail).value;
    }
  }

  lemma HeadSplits(e: SipaEvent, rest: bytes)
    requires |e.payload| < TWO_32
    ensures Split(e.pcr, Framed(e) + rest) == Before([e], Split(e.pcr, rest))
  {
    var b := Framed(e) + rest;
    assert b[..4] == Put32(e.typ);
    assert b[4..8] == Put32(|e.payload|);
    assert b[8..8 + |e.payload|] == e.payload && b[8 + |e.payload|..] == rest;
  }

  /** And any events, framed, are an accepted block: framing is a bijection. */
  lemma {:induction false} FramingSplits(pcr: int, es: seq<SipaEvent>)
    requires forall e | e in es :: |e.payload| < TWO_32 && e.pcr == pcr
    ensures Split(pcr, AllFramed(es)) == Some(es)
  {
    if es == [] {
    } else {
      assert es == [es[0]] + es[1..];
      FramingSplits(pcr, es[1..]);
      HeadSplits(es[0], AllFramed(es[1..]));
    }
  }

  // ----- Latches -----

  predicate Reported(es: seq<SipaEvent>, typ: uint32) {
    exists e | e in es :: e.typ == typ
  }

  predicate EverSet(es: seq<SipaEvent>, typ: uint32) {
    exists e | e in es :: e.typ == typ && NonZero(e.payload)
  }

  predicate EverClear(es: seq<SipaEvent>, typ: uint32) {
    exists e | e in es :: e.typ == typ && !NonZero(e.payload)
  }

  /** False if any report is false, true if there is one and all are true, else unknown. */
  function Consistently(es: seq<SipaEvent>, typ: uint32): Ternary {
    if EverClear(es, typ) then TernaryFalse else if Reported(es, typ) then TernaryTrue else TernaryUnknown
  }

  lemma ReportsMore(es: seq<SipaEvent>, e: SipaEvent, typ: uint32)
    ensures Reported(es + [e], typ) <==> Reported(es, typ) || e.typ == typ
    ensures EverSet(es + [e], typ) <==> EverSet(es, typ) || (e.typ == typ && NonZero(e.payload))
    ensures EverClear(es + [e], typ) <==> EverClear(es, typ) || (e.typ == typ && !NonZero(e.payload))
  {
  }

  /** The five boolean reports are a disjunction or a consistent conjunction of all events. */
  predicate Latches(s: WinState, es: seq<SipaEvent>) {
    && (s.kernelDebug <==> EverSet(es, OS_KERNEL_DEBUG))
    && (s.bootDebugging <==> EverSet(es, BOOT_DEBUGGING))
    && (s.testSigning <==> EverSet(es, TEST_SIGNING))
    && s.codeIntegrity == Consistently(es, CODE_INTEGRITY)
    && s.dep == Consistently(es, DATA_EXECUTION_PREVENTION)
  }

  /** The latched fields of a state. */
  function Latchable(s: WinState): (bool, bool, bool, Ternary, Ternary) {
    (s.kernelDebug, s.bootDebugging, s.testSigning, s.codeIntegrity, s.dep)
  }

  lemma ApplyLatchable(utf16: Utf16, s: WinState, e: SipaEvent)
    requires Apply(utf16, s, e).Some?
    ensures Latchable(Apply(utf16, s, e).value) == Latchable(WithBoolean(s, e.typ, NonZero(e.payload)))
  {
    if IsBooleanByte(e.typ) || e.typ == DATA_EXECUTION_PREVENTION {
      assert Apply(utf16, s, e) == Some(WithBoolean(s, e.typ, NonZero(e.payload)));
    } else {
      assert WithBoolean(s, e.typ, NonZero(e.payload)) == s;
    }
  }

  lemma ApplyBooleans(utf16: Utf16, s: WinState, e: SipaEvent)
    requires Apply(utf16, s, e).Some?
    ensures var t, isSet := Apply(utf16, s, e).value, NonZero(e.payload);
            && t.kernelDebug == (s.kernelDebug || (e.typ == OS_KERNEL_DEBUG && isSet))
            && t.bootDebugging == (s.bootDebugging || (e.typ == BOOT_DEBUGGING && isSet))
            && t.testSigning == (s.testSigning || (e.typ == TEST_SIGNING && isSet))
            && t.codeIntegrity == (if e.typ == CODE_INTEGRITY then Latched(s.codeIntegrity, isSet) else s.codeIntegrity)
            && t.dep == (if e.typ == DATA_EXECUTION_PREVENTION then Latched(s.dep, isSet) else s.dep)
  {
    var t := Apply(utf16, s, e).value;
    ApplyLatchable(utf16, s, e);
    assert Latchable(t) == Latchable(WithBoolean(s, e.typ, NonZero(e.payload)));
  }

  lemma ConsistentlyMore(es: seq<SipaEvent>, e: SipaEvent, typ: uint32)
    ensures Consistently(es + [e], typ) ==
            if e.typ == typ then Latched(Consistently(es, typ), NonZero(e.payload)) else Consistently(es, typ)
  {
  }

  lemma LatchesMore(utf16: Utf16, s: WinState, es: seq<SipaEvent>, e: SipaEvent)
    requires Latches(s, es) && Apply(utf16, s, e).Some?
    ensures Latches(Apply(utf16, s, e).value, es + [e])
  {
    ApplyBooleans(utf16, s, e);
    ReportsMore(es, e, OS_KERNEL_DEBUG);
    ReportsMore(es, e, BOOT_DEBUGGING);
    ReportsMore(es, e, TEST_SIGNING);
    ConsistentlyMore(es, e, CODE_INTEGRITY);
    ConsistentlyMore(es, e, DATA_EXECUTION_PREVENTION);
  }

  lemma {:induction false} LatchesMean(utf16: Utf16, es: seq<SipaEvent>)
    requires ApplyAll(utf16, INITIAL, es).Some?
    ensures Latches(ApplyAll(utf16, INITIAL, es).value, es)
  {
    if es == [] {
    } else {
      var front, e := es[..|es| - 1], es[|es| - 1];
      LatchesMean(utf16, front);
      LatchesMore(utf16, ApplyAll(utf16, INITIAL, front).value, front, e);
      assert es == front + [e];
    }
  }

  lemma ReportsPermute(a: seq<SipaEvent>, b: seq<SipaEvent>, typ: uint32)
    requires multiset(a) == multiset(b)
    ensures EverSet(a, typ) <==> EverSet(b, typ)
    ensures Consistently(a, typ) == Consistently(b, typ)
  {
    forall e ensures e in a <==> e in b {
      InPermutation(a, b, e);
    }
  }

  /** They do not depend on the order of the events. */
  lemma LatchesPermute(utf16: Utf16, a: seq<SipaEvent>, b: seq<SipaEvent>)
    requires multiset(a) == multiset(b)
    requires ApplyAll(utf16, INITIAL, a).Some? && ApplyAll(utf16, INITIAL, b).Some?
    ensures var s, t := ApplyAll(utf16, INITIAL, a).value, ApplyAll(utf16, INITIAL, b).value;
            && s.kernelDebug == t.kernelDebug && s.bootDebugging == t.bootDebugging
            && s.testSigning == t.testSigning && s.codeIntegrity == t.codeIntegrity && s.dep == t.dep
  {
    LatchesMean(utf16, a);
    LatchesMean(utf16, b);
    ReportsPermute(a, b, OS_KERNEL_DEBUG);
    ReportsPermute(a, b, BOOT_DEBUGGING);
    ReportsPermute(a, b, TEST_SIGNING);
    ReportsPermute(a, b, CODE_INTEGRITY);
    ReportsPermute(a, b, DATA_EXECUTION_PREVENTION);
  }

  // ----- Acceptance and the boot counter -----

  /** An event acceptable on its own, whatever came before. */
  predicate Sane(utf16: Utf16, e: SipaEvent) {
    var n := |e.payload|;
    && (e.typ == ELAM_AGGREGATION ==> Elam(utf16, e.payload, NO_ELAM, map[]).ok)
    && (e.typ == LOADED_MODULE_AGGREGATION ==> LoadedModule(utf16, e.payload, NO_MODULE).Some?)
    && (e.typ == BOOT_COUNTER || e.typ == DATA_EXECUTION_PREVENTION ==> n == 8)
    && (e.typ == BITLOCKER_UNLOCK ==> n <= 8 && Uvarint(e.payload).Some?)
    && (e.typ == TRANSFER_CONTROL ==> n == 4)
    && (IsBooleanByte(e.typ) ==> n == 1)
  }

  /** Whether an aggregation is accepted does not depend on the drivers known before it. */
  lemma {:induction false} ElamIndependent(utf16: Utf16, w: bytes, f: ElamFields, m1: map<string, WinELAM>, m2: map<string, WinELAM>)
    ensures Elam(utf16, w, f, m1).ok == Elam(utf16, w, f, m2).ok
    ensures Elam(utf16, w, f, m1).rest == Elam(utf16, w, f, m2).rest
    decreases |w|
  {
    if |w| < 8 {
    } else {
      var typ, size, p := U32(w[..4]), U32(w[4..8]), w[8..];
      if size <= |p| {
        if typ == ELAM_AGGREGATION {
          ElamIndependent(utf16, p[..size], NO_ELAM, m1, m2);
          var inner1, inner2 := Elam(utf16, p[..size], NO_ELAM, m1), Elam(utf16, p[..size], NO_ELAM, m2);
          ElamIndependent(utf16, inner1.rest + p[size..], f, inner1.elam, inner2.elam);
        } else if ElamField(utf16, f, typ, p[..Taken(typ, size)]).Some? {
          ElamIndependent(utf16, p[Taken(typ, size)..], ElamField(utf16, f, typ, p[..Taken(typ, size)]).value, m1, m2);
        }
      }
    }
  }

  lemma ApplySane(utf16: Utf16, s: WinState, e: SipaEvent)
    ensures Apply(utf16, s, e).Some? <==>
              Sane(utf16, e) && (e.typ == BOOT_COUNTER ==> s.bootCount == 0 || s.bootCount == U64(e.payload))
    ensures Apply(utf16, s, e).Some? ==>
              Apply(utf16, s, e).value.bootCount == if e.typ == BOOT_COUNTER then U64(e.payload) else s.bootCount
  {
    if e.typ == ELAM_AGGREGATION {
      ElamIndependent(utf16, e.payload, NO_ELAM, s.elam, map[]);
    }
  }

  /** The boot counter readings, in order. */
  function Readings(es: seq<SipaEvent>): seq<uint64> {
    if es == [] then []
    else
      var front, e := es[..|es| - 1], es[|es| - 1];
      if e.typ == BOOT_COUNTER && |e.payload| == 8 then Readings(front) + [U64(e.payload)] else Readings(front)
  }

  /** Zeros followed by one constant. */
  predicate OneCount(readings: seq<uint64>) {
    forall i, j | 0 <= i < j < |readings| :: readings[i] == 0 || readings[j] == readings[i]
  }

  function Last(readings: seq<uint64>): uint64 {
    if readings == [] then 0 else readings[|readings| - 1]
  }

  lemma OneCountMore(readings: seq<uint64>, n: uint64)
    ensures OneCount(readings + [n]) <==> OneCount(readings) && (Last(readings) == 0 || Last(readings) == n)
  {
    var more := readings + [n];
    assert more[..|readings|] == readings;
    if OneCount(more) {
      forall i, j | 0 <= i < j < |readings| ensures readings[i] == 0 || readings[j] == readings[i] {
        assert more[i] == readings[i] && more[j] == readings[j];
      }
      if readings != [] {
        assert more[|readings| - 1] == Last(readings) && more[|readings|] == n;
      }
    }
    if OneCount(readings) && (Last(readings) == 0 || Last(readings) == n) {
      forall i, j | 0 <= i < j < |more| ensures more[i] == 0 || more[j] == more[i] {
        if j == |readings| && i < |readings| - 1 {
          assert readings[i] == 0 || readings[|readings| - 1] == readings[i];
        }
      }
    }
  }

  /** A run of events each acceptable on its own, with agreeing readings of the boot counter. */
  predicate Acceptable(utf16: Utf16, es: seq<SipaEvent>) {
    (forall e | e in es :: Sane(utf16, e)) && OneCount(Readings(es))
  }

  lemma ReadingsMore(es: seq<SipaEvent>, e: SipaEvent)
    ensures Readings(es + [e]) ==
            if e.typ == BOOT_COUNTER && |e.payload| == 8 then Readings(es) + [U64(e.payload)] else Readings(es)
  {
  }

  lemma AcceptableMore(utf16: Utf16, es: seq<SipaEvent>, e: SipaEvent)
    ensures Acceptable(utf16, es + [e]) <==>
              && Acceptable(utf16, es) && Sane(utf16, e)
              && (e.typ == BOOT_COUNTER ==> Last(Readings(es)) == 0 || Last(Readings(es)) == U64(e.payload))
  {
    ReadingsMore(es, e);
    assert forall x :: x in es + [e] <==> x in es || x == e;
    if e.typ == BOOT_COUNTER && |e.payload| == 8 {
      OneCountMore(Readings(es), U64(e.payload));
    }
  }

  /**
   A run of SIPA events is accepted exactly when each is acceptable on its own and the boot
   counter readings are zeros followed by one constant, which then is the boot count.
   */
  lemma {:induction false} AcceptedIff(utf16: Utf16, es: seq<SipaEvent>)
    ensures ApplyAll(utf16, INITIAL, es).Some? <==> Acceptable(utf16, es)
    ensures ApplyAll(utf16, INITIAL, es).Some? ==>
              ApplyAll(utf16, INITIAL, es).value.bootCount == Last(Readings(es))
  {
    if es == [] {
    } else {
      var front, e := es[..|es| - 1], es[|es| - 1];
      assert es == front + [e];
      AcceptedIff(utf16, front);
      AcceptableMore(utf16, front, e);
      ReadingsMore(front, e);
      if ApplyAll(utf16, INITIAL, front).Some? {
        ApplySane(utf16, ApplyAll(utf16, INITIAL, front).value, e);
      }
    }
  }

  // ----- Loaded modules -----

  predicate LoadsModule(utf16: Utf16, e: SipaEvent, hash: bytes) {
    && e.typ == LOADED_MODULE_AGGREGATION
    && LoadedModule(utf16, e.payload, NO_MODULE).Some?
    && LoadedModule(utf16, e.payload, NO_MODULE).value.hash.GetOr([]) == hash
  }

  /** All non-zero addresses reported for a hash, newest first. */
  function ReportedBases(utf16: Utf16, es: seq<SipaEvent>, hash: bytes): seq<uint64> {
    if es == [] then []
    else
      var front, e := es[..|es| - 1], es[|es| - 1];
      if LoadsModule(utf16, e, hash) && LoadedModule(utf16, e.payload, NO_MODULE).value.imageBase != 0
      then [LoadedModule(utf16, e.payload, NO_MODULE).value.imageBase] + ReportedBases(utf16, front, hash)
      else ReportedBases(utf16, front, hash)
  }

  lemma WithModuleBases(utf16: Utf16, modules: map<bytes, WinModuleLoad>, f: ModuleFields, hash: bytes)
    ensures ImageBases(WithModule(modules, f), hash) ==
            if f.hash.GetOr([]) == hash && f.imageBase != 0 then [f.imageBase] + ImageBases(modules, hash)
            else ImageBases(modules, hash)
  {
  }

  lemma ApplyModules(utf16: Utf16, s: WinState, e: SipaEvent, hash: bytes)
    requires Apply(utf16, s, e).Some?
    ensures var modules := Apply(utf16, s, e).value.modules;
            && ImageBases(modules, hash) ==
               (if LoadsModule(utf16, e, hash) && LoadedModule(utf16, e.payload, NO_MODULE).value.imageBase != 0
                then [LoadedModule(utf16, e.payload, NO_MODULE).value.imageBase] + ImageBases(s.modules, hash)
                else ImageBases(s.modules, hash))
            && (hash in modules <==> hash in s.modules || LoadsModule(utf16, e, hash))
  {
    if e.typ == LOADED_MODULE_AGGREGATION {
      WithModuleBases(utf16, s.modules, LoadedModule(utf16, e.payload, NO_MODULE).value, hash);
    }
  }

  lemma ReportedMore(utf16: Utf16, es: seq<SipaEvent>, e: SipaEvent, hash: bytes)
    ensures ReportedBases(utf16, es + [e], hash) ==
            if LoadsModule(utf16, e, hash) && LoadedModule(utf16, e.payload, NO_MODULE).value.imageBase != 0
            then [LoadedModule(utf16, e.payload, NO_MODULE).value.imageBase] + ReportedBases(utf16, es, hash)
            else ReportedBases(utf16, es, hash)
    ensures (exists x | x in es + [e] :: LoadsModule(utf16, x, hash)) <==>
            (exists x | x in es :: LoadsModule(utf16, x, hash)) || LoadsModule(utf16, e, hash)
  {
  }

  lemma ApplyAllMore(utf16: Utf16, es: seq<SipaEvent>, e: SipaEvent)
    requires ApplyAll(utf16, INITIAL, es + [e]).Some?
    ensures ApplyAll(utf16, INITIAL, es).Some?
    ensures Apply(utf16, ApplyAll(utf16, INITIAL, es).value, e) == ApplyAll(utf16, INITIAL, es + [e])
  {
  }

  /** Each module's addresses are all those reported for its hash; a module is listed when it was reported. */
  lemma {:induction false} ModulesMean(utf16: Utf16, es: seq<SipaEvent>, hash: bytes)
    requires ApplyAll(utf16, INITIAL, es).Some?
    ensures ImageBases(ApplyAll(utf16, INITIAL, es).value.modules, hash) == ReportedBases(utf16, es, hash)
    ensures hash in ApplyAll(utf16, INITIAL, es).value.modules <==> exists e | e in es :: LoadsModule(utf16, e, hash)
  {
    if es == [] {
    } else {
      var front, e := es[..|es| - 1], es[|es| - 1];
      assert es == front + [e];
      ApplyAllMore(utf16, front, e);
      ModulesMean(utf16, front, hash);
      ApplyModules(utf16, ApplyAll(utf16, INITIAL, front).value, e, hash);
      ReportedMore(utf16, front, e, hash);
    }
  }

  // ----- Which events count -----

  lemma SeparatedWithout(a: seq<Event>, e: Event, b: seq<Event>, pcr: int)
    requires e.typ != SEPARATOR
    ensures Separated(a + [e] + b, pcr) <==> Separated(a + b, pcr)
  {
  }

  lemma {:induction false} LateTagsAreIgnored(env: WinEnv, a: seq<Event>, e: Event, b: seq<Event>)
    requires Relevant(e) && e.typ == EVENT_TAG && Separated(a, e.index)
    ensures Stream(env, a + [e] + b) == Stream(env, a + b)
  {
    if b == [] {
      assert a + [e] + b == a + [e] && a + b == a;
      StreamMore(env, a, e);
      if Stream(env, a).Some? {
        assert Stream(env, a).value + [] == Stream(env, a).value;
      }
    } else {
      var front, x := b[..|b| - 1], b[|b| - 1];
      assert a + [e] + b == (a + [e] + front) + [x] && a + b == (a + front) + [x];
      LateTagsAreIgnored(env, a, e, front);
      StreamMore(env, a + [e] + front, x);
      StreamMore(env, a + front, x);
      SeparatedWithout(a, e, front, x.index);
    }
  }

  /** Deleting a tagged event behind its PCR's separator never changes the result. */
  lemma BoundaryHolds(env: WinEnv, a: seq<Event>, e: Event, b: seq<Event>)
    requires Relevant(e) && e.typ == EVENT_TAG && Separated(a, e.index)
    ensures WinVerdict(env, a + [e] + b) == WinVerdict(env, a + b)
  {
    LateTagsAreIgnored(env, a, e, b);
  }

  /** In an accepted run every tagged event that counts, and every separator, matches its digest. */
  lemma {:induction false} ContributorsMeasured(env: WinEnv, events: seq<Event>, i: nat)
    requires Stream(env, events).Some? && i < |events| && Relevant(events[i])
    requires events[i].typ == EVENT_TAG ==> !Separated(events[..i], events[i].index)
    ensures DigestEquals(env.hash, events[i], events[i].data)
  {
    var front := events[..|events| - 1];
    if i < |front| {
      assert front[..i] == events[..i];
      ContributorsMeasured(env, front, i);
    } else {
      assert front == events[..i];
    }
  }
}
