/**
 The event log object (attest/eventlog.go: ParseEventLog, EventLog.clone,
 EventLog.Verify) and its workarounds (attest/eventlog_workarounds.go).
 */
module EventLogs {
  import opened Bytes
  import opened Hashing
  import opened Replay
  import opened Sorting
  import opened Merge
  import opened LogFormat

  /** The contents of an event log. */
  datatype Log = Log(algs: seq<byte>, spec: Option<seq<SpecAlg>>, rawEvents: seq<RawEvent>)

  // ----- Parsing -----

  function ParseTail(spec: Option<seq<SpecAlg>>, b: bytes): Option<seq<RawEvent>>
    decreases |b|
  {
    if b == [] then Some([])
    else
      match ParseEvent(spec, b)
      case Fail => None
      case Got(e, rest) => Before([e], ParseTail(spec, rest))
  }

  /** Events numbered in log order. */
  function Numbered(raw: seq<RawEvent>, start: int): (r: seq<RawEvent>)
    ensures |r| == |raw|
  {
    seq(|raw|, i requires 0 <= i < |raw| => raw[i].(sequence := start + i))
  }

  lemma NumberedAppend(raw: seq<RawEvent>, e: RawEvent, start: int)
    ensures Numbered(raw + [e], start) == Numbered(raw, start) + [e.(sequence := start + |raw|)]
  {
  }

  /** The spec ID entries whose digests can be replayed. */
  function LogAlgs(spec: seq<SpecAlg>): seq<byte> {
    if spec == [] then []
    else
      var last := spec[|spec| - 1].id;
      LogAlgs(spec[..|spec| - 1]) + if last == ALG_SHA1 || last == ALG_SHA256 then [last] else []
  }

  /** Whether the first event announces the crypto agile format. */
  predicate IsSpecID(e: RawEvent) {
    e.typ == EV_NO_ACTION && |e.data| >= SPEC_ID_HEADER_SIZE
  }

  /** The log as its first event leaves it: a spec ID event is not kept among the events. */
  function ParseHead(e: RawEvent): Option<Log> {
    if !IsSpecID(e) then Some(Log([ALG_SHA1], None, [e]))
    else
      var spec := ParseSpecID(e.data);
      if spec == None || LogAlgs(spec.value) == [] then None else Some(Log(LogAlgs(spec.value), spec, []))
  }

  /** Sequence numbers start at 1 after the first event. */
  function Completed(head: Log, tail: Option<seq<RawEvent>>): Option<Log> {
    match tail
    case None => None
    case Some(raw) => Some(head.(rawEvents := head.rawEvents + Numbered(raw, 1)))
  }

  function ParseLog(b: bytes): Option<Log> {
    match ParseEvent1(b)
    case Fail => None
    case Got(e, tail) =>
      match ParseHead(e)
      case None => None
      case Some(head) => Completed(head, ParseTail(head.spec, tail))
  }

  /** What every parsed log satisfies: events in sequence order, only usable algorithms. */
  predicate WellFormed(log: Log) {
    && IncreasingBy(log.rawEvents, RawSequence)
    && forall a | a in log.algs :: Supported(CryptoHashOf(a))
  }

  lemma LogAlgsSupported(spec: seq<SpecAlg>)
    ensures forall a | a in LogAlgs(spec) :: Supported(CryptoHashOf(a))
  {
  }

  lemma ParsedWellFormed(b: bytes)
    requires ParseLog(b).Some?
    ensures WellFormed(ParseLog(b).value)
  {
    var spec := ParseLog(b).value.spec;
    if spec.Some? {
      LogAlgsSupported(spec.value);
    }
  }

  // ----- Workarounds -----

  /** eventlogWorkarounds: the texts of the events each one adds to PCR 5. */
  const AFFECTED_PCR := 5
  const EBS_INVOCATION: bytes := Ascii("Exit Boot Services Invocation")
  const EBS_SUCCESS: bytes := Ascii("Exit Boot Services Returned with Success")
  const EBS_FAILURE: bytes := Ascii("Exit Boot Services Returned with Failure")
  const WORKAROUNDS: seq<seq<bytes>> := [
    [EBS_INVOCATION, EBS_SUCCESS],
    [EBS_INVOCATION, EBS_FAILURE],
    [EBS_INVOCATION, EBS_FAILURE, EBS_SUCCESS]
  ]

  function HashedBy(hash: HashFunction, algs: seq<byte>, data: bytes): (ds: seq<Digest>)
    ensures |ds| == |algs|
  {
    seq(|algs|, i requires 0 <= i < |algs| => Digest(CryptoHashOf(algs[i]), hash(CryptoHashOf(algs[i]), data)))
  }

  /** A log with one more event, numbered after its last. */
  function Injected(hash: HashFunction, log: Log, pcr: int, data: bytes): Log
    requires log.rawEvents != []
  {
    var last := log.rawEvents[|log.rawEvents| - 1];
    log.(rawEvents := log.rawEvents + [RawEvent(last.sequence + 1, pcr, 0, data, HashedBy(hash, log.algs, data))])
  }

  function Patched(hash: HashFunction, log: Log, suffix: seq<bytes>): Log
    requires log.rawEvents != []
    decreases |suffix|
  {
    if suffix == [] then log else Patched(hash, Injected(hash, log, AFFECTED_PCR, suffix[0]), suffix[1..])
  }

  /** The suffix makes PCR 5 replay in some provided bank. */
  predicate Works(hash: HashFunction, log: Log, pcrs: seq<PCR>, suffix: seq<bytes>)
    requires log.rawEvents != []
  {
    exists p | p in pcrs :: p.index == AFFECTED_PCR && Replays(hash, Patched(hash, log, suffix).rawEvents, p)
  }

  function FirstWorking(hash: HashFunction, log: Log, pcrs: seq<PCR>, suffixes: seq<seq<bytes>>): Option<Log>
    requires log.rawEvents != []
  {
    if suffixes == [] then None
    else if Works(hash, log, pcrs, suffixes[0]) then Some(Patched(hash, log, suffixes[0]))
    else FirstWorking(hash, log, pcrs, suffixes[1..])
  }

  /** The log whose events Verify returns: the receiver, or the receiver with the first suffix that works. */
  function Effective(hash: HashFunction, log: Log, pcrs: seq<PCR>): Option<Log> {
    var failing := Failing(hash, log.rawEvents, pcrs);
    if failing == {} then Some(log)
    else if failing != {AFFECTED_PCR} || log.rawEvents == [] then None
    else FirstWorking(hash, log, pcrs, WORKAROUNDS)
  }

  // ----- What injected events leave alone -----

  lemma ReplayIgnoresOthers(hash: HashFunction, raw: seq<RawEvent>, e: RawEvent, p: PCR)
    requires e.index != p.index
    ensures Replays(hash, raw + [e], p) == Replays(hash, raw, p)
  {
    assert (raw + [e])[..|raw|] == raw;
    assert EventsFor(raw + [e], p.index, p.alg) == EventsFor(raw, p.index, p.alg);
    assert StartLocality(raw + [e], p.index) == StartLocality(raw, p.index);
    assert forall x | x in raw :: x in raw + [e];
    assert forall x | x in raw + [e] :: x in raw || x == e;
  }

  lemma PatchedReplay(hash: HashFunction, log: Log, suffix: seq<bytes>, p: PCR)
    requires log.rawEvents != [] && p.index != AFFECTED_PCR
    ensures Replays(hash, Patched(hash, log, suffix).rawEvents, p) == Replays(hash, log.rawEvents, p)
    decreases |suffix|
  {
    if suffix == [] {
    } else {
      var next := Injected(hash, log, AFFECTED_PCR, suffix[0]);
      ReplayIgnoresOthers(hash, log.rawEvents, next.rawEvents[|log.rawEvents|], p);
      PatchedReplay(hash, next, suffix[1..], p);
    }
  }

  lemma PatchedWellFormed(hash: HashFunction, log: Log, suffix: seq<bytes>)
    requires log.rawEvents != [] && WellFormed(log)
    ensures WellFormed(Patched(hash, log, suffix))
    decreases |suffix|
  {
    if suffix == [] {
    } else {
      PatchedWellFormed(hash, Injected(hash, log, AFFECTED_PCR, suffix[0]), suffix[1..]);
    }
  }

  lemma {:induction false} NoHashlessDigest(ds: seq<Digest>)
    requires forall d | d in ds :: d.hash != NoHash
    ensures BankDigest(ds, NoHash) == None
  {
    if ds == [] {
    } else {
      assert ds[0] in ds;
      NoHashlessDigest(ds[1..]);
    }
  }

  lemma InjectedPanics(hash: HashFunction, log: Log, data: bytes, p: PCR)
    requires log.rawEvents != [] && WellFormed(log)
    ensures Panics(Injected(hash, log, AFFECTED_PCR, data).rawEvents, p) <==> Panics(log.rawEvents, p)
  {
    var raw, after := log.rawEvents, Injected(hash, log, AFFECTED_PCR, data).rawEvents;
    NoHashlessDigest(HashedBy(hash, log.algs, data));
    assert forall i: nat | i < |raw| :: after[..i] == raw[..i] && after[i] == raw[i];
    assert forall i: nat | i < |raw| :: FirstDigested(after, p, i) <==> FirstDigested(raw, p, i);
  }

  /** No workaround causes or prevents a panic. */
  lemma {:induction false} PatchedPanics(hash: HashFunction, log: Log, suffix: seq<bytes>, pcrs: seq<PCR>)
    requires log.rawEvents != [] && WellFormed(log)
    ensures AnyPanics(Patched(hash, log, suffix).rawEvents, pcrs) <==> AnyPanics(log.rawEvents, pcrs)
    decreases |suffix|
  {
    if suffix == [] {
    } else {
      var next := Injected(hash, log, AFFECTED_PCR, suffix[0]);
      PatchedWellFormed(hash, log, [suffix[0]]);
      assert Patched(hash, log, [suffix[0]]) == Patched(hash, next, []) == next;
      forall p | p in pcrs ensures Panics(next.rawEvents, p) <==> Panics(log.rawEvents, p) {
        InjectedPanics(hash, log, suffix[0], p);
      }
      PatchedPanics(hash, next, suffix[1..], pcrs);
    }
  }

  /** A suffix can only repair PCR 5. */
  lemma PatchedFailing(hash: HashFunction, log: Log, suffix: seq<bytes>, pcrs: seq<PCR>)
    requires log.rawEvents != []
    ensures var failing := Failing(hash, Patched(hash, log, suffix).rawEvents, pcrs);
            && failing - {AFFECTED_PCR} == Failing(hash, log.rawEvents, pcrs) - {AFFECTED_PCR}
            && (AFFECTED_PCR in Provided(pcrs) ==> (AFFECTED_PCR !in failing <==> Works(hash, log, pcrs, suffix)))
  {
    var after := Patched(hash, log, suffix).rawEvents;
    forall i | i in Provided(pcrs) && i != AFFECTED_PCR
      ensures FirstBank(hash, after, pcrs, i) == None <==> FirstBank(hash, log.rawEvents, pcrs, i) == None
    {
      FirstBankReplays(hash, after, pcrs, i);
      FirstBankReplays(hash, log.rawEvents, pcrs, i);
      forall p | p in pcrs && p.index == i ensures Replays(hash, after, p) == Replays(hash, log.rawEvents, p) {
        PatchedReplay(hash, log, suffix, p);
      }
    }
    FirstBankReplays(hash, after, pcrs, AFFECTED_PCR);
  }

  /** With PCR 5 failing, a suffix leaves nothing failing just when it works and nothing else failed. */
  lemma PatchedRepairs(hash: HashFunction, log: Log, suffix: seq<bytes>, pcrs: seq<PCR>)
    requires log.rawEvents != [] && AFFECTED_PCR in Failing(hash, log.rawEvents, pcrs)
    ensures Failing(hash, Patched(hash, log, suffix).rawEvents, pcrs) == {} <==>
              Failing(hash, log.rawEvents, pcrs) == {AFFECTED_PCR} && Works(hash, log, pcrs, suffix)
  {
    PatchedFailing(hash, log, suffix, pcrs);
    var before, after := Failing(hash, log.rawEvents, pcrs), Failing(hash, Patched(hash, log, suffix).rawEvents, pcrs);
    assert after == (after - {AFFECTED_PCR}) + if AFFECTED_PCR in after then {AFFECTED_PCR} else {};
    assert before == (before - {AFFECTED_PCR}) + {AFFECTED_PCR};
  }

  /** PCR 5 can only fail on a log that has events. */
  lemma FailureHasEvents(hash: HashFunction, raw: seq<RawEvent>, pcrs: seq<PCR>)
    requires Failing(hash, raw, pcrs) != {}
    ensures raw != []
  {
    var i :| i in Failing(hash, raw, pcrs);
    FirstBankReplays(hash, raw, pcrs, i);
    var p :| p in pcrs && p.index == i;
    assert !Replays(hash, raw, p);
  }

  lemma FirstWorkingWorks(hash: HashFunction, log: Log, pcrs: seq<PCR>, suffixes: seq<seq<bytes>>)
    requires log.rawEvents != []
    ensures FirstWorking(hash, log, pcrs, suffixes).Some? <==> exists s | s in suffixes :: Works(hash, log, pcrs, s)
    ensures FirstWorking(hash, log, pcrs, suffixes).Some? ==>
              exists s | s in suffixes :: Works(hash, log, pcrs, s) &&
                                          FirstWorking(hash, log, pcrs, suffixes).value == Patched(hash, log, s)
  {
  }

  /**
   Verification succeeds exactly when every provided PCR replays, or PCR 5 alone fails and
   one of the three suffixes, added to the log as parsed, makes it replay in some bank.
   */
  lemma VerifiesIff(hash: HashFunction, log: Log, pcrs: seq<PCR>)
    ensures Effective(hash, log, pcrs).Some? <==>
              || Failing(hash, log.rawEvents, pcrs) == {}
              || (&& Failing(hash, log.rawEvents, pcrs) == {AFFECTED_PCR}
                  && log.rawEvents != []
                  && exists s | s in WORKAROUNDS :: Works(hash, log, pcrs, s))
    ensures Failing(hash, log.rawEvents, pcrs) != {} ==> log.rawEvents != []
    ensures Effective(hash, log, pcrs).Some? ==>
              Failing(hash, Effective(hash, log, pcrs).value.rawEvents, pcrs) == {}
    ensures Effective(hash, log, pcrs).Some? && WellFormed(log) ==> WellFormed(Effective(hash, log, pcrs).value)
  {
    if Failing(hash, log.rawEvents, pcrs) != {} {
      FailureHasEvents(hash, log.rawEvents, pcrs);
      FirstWorkingWorks(hash, log, pcrs, WORKAROUNDS);
      var e := Effective(hash, log, pcrs);
      if e.Some? {
        var s :| s in WORKAROUNDS && Works(hash, log, pcrs, s) && e.value == Patched(hash, log, s);
        PatchedRepairs(hash, log, s, pcrs);
        if WellFormed(log) {
          PatchedWellFormed(hash, log, s);
        }
      }
    }
  }

  // ----- The object -----

  class EventLog {
    var Algs: seq<byte>
    var rawEvents: seq<RawEvent>
    var specIDEvent: Option<seq<SpecAlg>>

    ghost function Contents(): Log
      reads this
    {
      Log(Algs, specIDEvent, rawEvents)
    }

    constructor (algs: seq<byte>, rawEvents: seq<RawEvent>, spec: Option<seq<SpecAlg>>)
      ensures Contents() == Log(algs, spec, rawEvents)
    {
      Algs, this.rawEvents, specIDEvent := algs, rawEvents, spec;
    }

    method Clone() returns (out: EventLog)
      ensures fresh(out) && out.Contents() == Contents()
    {
      out := new EventLog(Algs, rawEvents, specIDEvent);
    }

    /** inject: refuses nothing, but needs a last event to number from. */
    method Inject(hash: HashFunction, pcr: int, data: bytes)
      requires |rawEvents| > 0
      requires forall a | a in Algs :: Supported(CryptoHashOf(a))
      modifies this
      ensures Contents() == Injected(hash, old(Contents()), pcr, data)
    {
      var digests: seq<Digest>, i := [], 0;
      while i < |Algs|
        invariant 0 <= i <= |Algs|
        invariant digests == HashedBy(hash, Algs[..i], data)
        invariant Contents() == old(Contents())
      {
        digests := digests + [Digest(CryptoHashOf(Algs[i]), hash(CryptoHashOf(Algs[i]), data))];
        i := i + 1;
      }
      assert Algs[..i] == Algs;
      var evt := RawEvent(rawEvents[|rawEvents| - 1].sequence + 1, pcr, 0, data, digests);
      rawEvents := rawEvents + [evt];
    }

    /** inject2 and inject3. */
    method Apply(hash: HashFunction, suffix: seq<bytes>)
      requires |rawEvents| > 0
      requires forall a | a in Algs :: Supported(CryptoHashOf(a))
      modifies this
      ensures Contents() == Patched(hash, old(Contents()), suffix)
    {
      var i := 0;
      while i < |suffix|
        invariant 0 <= i <= |suffix|
        invariant |rawEvents| > 0 && Algs == old(Algs)
        invariant Patched(hash, Contents(), suffix[i..]) == Patched(hash, old(Contents()), suffix)
      {
        Inject(hash, AFFECTED_PCR, suffix[i]);
        i := i + 1;
      }
    }

    /** One workaround, tried on a copy of the log. */
    method Retry(hash: HashFunction, pcrs: seq<PCR>, suffix: seq<bytes>) returns (r: ReplayResult)
      requires WellFormed(Contents()) && !AnyPanics(rawEvents, pcrs)
      requires AFFECTED_PCR in Failing(hash, rawEvents, pcrs)
      ensures rawEvents != [] && r != Panicked
      ensures r.Verified? <==>
                Failing(hash, rawEvents, pcrs) == {AFFECTED_PCR} && Works(hash, Contents(), pcrs, suffix)
      ensures r.Verified? ==> r.events == VerifiedEvents(hash, Patched(hash, Contents(), suffix).rawEvents, pcrs)
    {
      FailureHasEvents(hash, rawEvents, pcrs);
      PatchedRepairs(hash, Contents(), suffix, pcrs);
      PatchedPanics(hash, Contents(), suffix, pcrs);
      PatchedWellFormed(hash, Contents(), suffix);
      var el := Clone();
      el.Apply(hash, suffix);
      r := ReplayEvents(hash, el.rawEvents, pcrs);
      if r.Verified? {
        VerifiedInLogOrder(hash, el.rawEvents, pcrs, r);
      }
    }

    /** Verify: the workarounds never accumulate and the receiver never changes. */
    method Verify(hash: HashFunction, pcrs: seq<PCR>) returns (r: ReplayResult)
      requires WellFormed(Contents())
      ensures Contents() == old(Contents())
      ensures r == Panicked <==> AnyPanics(rawEvents, pcrs)
      ensures r.Verified? <==> !AnyPanics(rawEvents, pcrs) && Effective(hash, Contents(), pcrs).Some?
      ensures r.Verified? ==>
                r.events == VerifiedEvents(hash, Effective(hash, Contents(), pcrs).value.rawEvents, pcrs)
      ensures r.ReplayError? ==> Outcome(hash, rawEvents, pcrs, r)
    {
      r := ReplayEvents(hash, rawEvents, pcrs);
      if r.Verified? {
        VerifiedInLogOrder(hash, rawEvents, pcrs, r);
        return;
      }
      if r == Panicked {
        return;
      }
      FailureHasEvents(hash, rawEvents, pcrs);
      var i := 0;
      while i < |WORKAROUNDS|
        invariant 0 <= i <= |WORKAROUNDS|
        invariant Failing(hash, rawEvents, pcrs) == {AFFECTED_PCR} ==>
                    FirstWorking(hash, Contents(), pcrs, WORKAROUNDS[i..]) == Effective(hash, Contents(), pcrs)
      {
        assert AFFECTED_PCR in r.invalidPCRs <==> AFFECTED_PCR in Elements(r.invalidPCRs);
        if AFFECTED_PCR in r.invalidPCRs {
          var retried := Retry(hash, pcrs, WORKAROUNDS[i]);
          if retried.Verified? {
            return retried;
          }
        }
        i := i + 1;
      }
    }
  }

  /** parseFn: the format is chosen by the first event. */
  method ReadEvent(r: Buffer, spec: Option<seq<SpecAlg>>) returns (event: Option<RawEvent>)
    modifies r
    ensures match ParseEvent(spec, old(r.unread))
            case Fail => event == None
            case Got(v, rest) => event == Some(v) && r.unread == rest
  {
    if spec == None {
      event := ParseRawEvent(r);
    } else {
      event := ParseRawEvent2(r, spec.value);
    }
  }

  lemma TailMore(spec: Option<seq<SpecAlg>>, parsed: seq<RawEvent>, b: bytes)
    requires b != []
    ensures match ParseEvent(spec, b)
            case Fail => Before(parsed, ParseTail(spec, b)) == None
            case Got(e, rest) =>
              && Before(parsed, ParseTail(spec, b)) == Before(parsed + [e], ParseTail(spec, rest))
              && Numbered(parsed + [e], 1) == Numbered(parsed, 1) + [e.(sequence := 1 + |parsed|)]
  {
    var p := ParseEvent(spec, b);
    if p.Got? {
      BeforeBefore(parsed, [p.value], ParseTail(spec, p.rest));
      NumberedAppend(parsed, p.value, 1);
    }
  }

  /** The loop of ParseEventLog, after its first event. */
  method ReadEvents(r: Buffer, spec: Option<seq<SpecAlg>>) returns (raw: Option<seq<RawEvent>>)
    modifies r
    ensures match ParseTail(spec, old(r.unread))
            case None => raw == None
            case Some(events) => raw == Some(Numbered(events, 1))
  {
    var events: seq<RawEvent>, sequence := [], 1;
    ghost var parsed: seq<RawEvent> := [];
    BeforeBefore([], [], ParseTail(spec, r.unread));
    while |r.unread| != 0
      invariant sequence == 1 + |parsed|
      invariant events == Numbered(parsed, 1)
      invariant ParseTail(spec, old(r.unread)) == Before(parsed, ParseTail(spec, r.unread))
      decreases |r.unread|
    {
      ghost var p := ParseEvent(spec, r.unread);
      TailMore(spec, parsed, r.unread);
      var next := ReadEvent(r, spec);
      if next == None {
        return None;
      }
      parsed := parsed + [p.value];
      events := events + [next.value.(sequence := sequence)];
      sequence := sequence + 1;
    }
    BeforeBefore(parsed, [], Some([]));
    raw := Some(events);
  }

  method ParseEventLog(b: bytes) returns (log: Option<EventLog>)
    ensures log.Some? <==> ParseLog(b).Some?
    ensures log.Some? ==>
              fresh(log.value) && log.value.Contents() == ParseLog(b).value && WellFormed(log.value.Contents())
  {
    if ParseLog(b).Some? {
      ParsedWellFormed(b);
    }
    var r := new Buffer(b);
    var first := ParseRawEvent(r);
    if first == None {
      return None;
    }
    var e := first.value;
    var algs: seq<byte>, head: seq<RawEvent>, spec: Option<seq<SpecAlg>> := [ALG_SHA1], [e], None;
    if e.typ == EV_NO_ACTION && |e.data| >= SPEC_ID_HEADER_SIZE {
      spec := ParseSpecIDEvent(e.data);
      if spec == None {
        return None;
      }
      algs := UsableAlgs(spec.value);
      head := [];
      if |algs| == 0 {
        return None;
      }
    }
    var tail := ReadEvents(r, spec);
    if tail == None {
      return None;
    }
    var el := new EventLog(algs, head + tail.value, spec);
    log := Some(el);
  }

  method UsableAlgs(spec: seq<SpecAlg>) returns (algs: seq<byte>)
    ensures algs == LogAlgs(spec)
  {
    algs := [];
    var i := 0;
    while i < |spec|
      invariant 0 <= i <= |spec|
      invariant algs == LogAlgs(spec[..i])
    {
      TakeOneMore(spec, i);
      if spec[i].id == ALG_SHA1 {
        algs := algs + [ALG_SHA1];
      } else if spec[i].id == ALG_SHA256 {
        algs := algs + [ALG_SHA256];
      }
      i := i + 1;
    }
    assert spec[..i] == spec;
  }
}
