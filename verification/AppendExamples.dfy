/**
 Whole crypto agile logs, written and read back, and combined logs that are not what the
 comment at AppendEvents (attest/eventlog.go) promises.
 */
module AppendExamples {
  import opened Bytes
  import opened Hashing
  import opened Replay
  import opened LogFormat
  import opened EventLogs
  import opened Append

  // ----- Writing a log -----

  function AlgBytes(algs: seq<SpecAlg>): (b: bytes)
    ensures |b| == 4 * |algs|
  {
    if algs == [] then [] else Put16(algs[0].id) + Put16(algs[0].size) + AlgBytes(algs[1..])
  }

  /** Platform class, version 2.0, errata and uintn size. */
  const SPEC_ID_VERSION: bytes := [0, 0, 0, 0, 0, 2, 0, 2]

  /** A spec ID event without vendor data. */
  function SpecIDBytes(algs: seq<SpecAlg>): (b: bytes)
    ensures |b| == 29 + 4 * |algs|
  {
    SPEC_ID_SIGNATURE + SPEC_ID_VERSION + Put32(Narrow32(|algs|)) + (AlgBytes(algs) + [0])
  }

  lemma AlgSplit(a: SpecAlg, rest: bytes)
    ensures var b := Put16(a.id) + Put16(a.size) + rest;
            b[..2] == Put16(a.id) && b[2..4] == Put16(a.size) && b[4..] == rest
  {
  }

  lemma AlgStep(a: SpecAlg, n: nat, rest: bytes)
    ensures ParseSpecAlgs(n + 1, Put16(a.id) + Put16(a.size) + rest) == After([a], ParseSpecAlgs(n, rest))
  {
    AlgSplit(a, rest);
  }

  lemma AlgBytesMore(algs: seq<SpecAlg>, rest: bytes)
    requires algs != []
    ensures AlgBytes(algs) + rest == Put16(algs[0].id) + Put16(algs[0].size) + (AlgBytes(algs[1..]) + rest)
  {
  }

  lemma {:induction false} AlgsRoundTrip(algs: seq<SpecAlg>, rest: bytes)
    ensures ParseSpecAlgs(|algs|, AlgBytes(algs) + rest) == Got(algs, rest)
  {
    if algs == [] {
      assert [] + rest == rest;
    } else {
      var a, more := algs[0], algs[1..];
      AlgsRoundTrip(more, rest);
      AlgStep(a, |more|, AlgBytes(more) + rest);
      AlgBytesMore(algs, rest);
      assert algs == [a] + more;
    }
  }

  lemma SpecIDFields(sig: bytes, version: bytes, n: bytes, rest: bytes)
    requires |sig| == 16 && |version| == 8 && |n| == 4
    ensures var b := sig + version + n + rest;
            b[..16] == sig && b[20] == version[4] && b[21] == version[5] && b[24..28] == n && b[28..] == rest
  {
  }

  lemma SpecIDRoundTrip(algs: seq<SpecAlg>)
    requires |algs| < TWO_32
    ensures ParseSpecID(SpecIDBytes(algs)) == Some(algs)
  {
    SpecIDFields(SPEC_ID_SIGNATURE, SPEC_ID_VERSION, Put32(|algs|), AlgBytes(algs) + [0]);
    AlgsRoundTrip(algs, [0]);
  }

  /** The event that announces the format: EV_NO_ACTION in PCR 0, in the SHA1 format. */
  function FirstEvent(data: bytes): bytes {
    Put32(0) + Put32(EV_NO_ACTION) + Copies(0, 20) + DataBytes(data)
  }

  lemma EventFields(a: bytes, b: bytes, c: bytes, rest: bytes)
    requires |a| == 4 && |b| == 4 && |c| == 20
    ensures var all := a + b + c + rest;
            all[..4] == a && all[4..8] == b && all[8..28] == c && all[28..] == rest
  {
  }

  /** Parsing a written event of the SHA1 format gives it back. */
  lemma EventRoundTrip(index: uint32, typ: uint32, digest: bytes, data: bytes, rest: bytes)
    requires |digest| == 20 && |data| + |rest| < TWO_32
    ensures ParseEvent1(Put32(index) + Put32(typ) + digest + DataBytes(data) + rest) ==
            Got(RawEvent(0, index, typ, data, [Digest(SHA1, digest)]), rest)
  {
    EventFields(Put32(index), Put32(typ), digest, DataBytes(data) + rest);
    DataRoundTrip(data, rest);
    Regroup(Put32(index) + Put32(typ) + digest, DataBytes(data), rest, []);
  }

  function LogOf(algs: seq<SpecAlg>, ws: seq<WireEvent>): bytes {
    FirstEvent(SpecIDBytes(algs)) + LogBytes(ws)
  }

  /** A log of usable algorithms whose events can be read. */
  predicate Loggable(algs: seq<SpecAlg>, ws: seq<WireEvent>) {
    && LogAlgs(algs) != [] && |algs| < TWO_32
    && AllRead(algs, ws)
    && |SpecIDBytes(algs)| + |LogBytes(ws)| < TWO_32
  }

  lemma LogIs(b: bytes, e: RawEvent, tail: bytes, head: Log)
    requires ParseEvent1(b) == Got(e, tail) && ParseHead(e) == Some(head)
    ensures ParseLog(b) == Completed(head, ParseTail(head.spec, tail))
  {
  }

  lemma HeadIs(e: RawEvent, algs: seq<SpecAlg>)
    requires e.typ == EV_NO_ACTION && e.data == SpecIDBytes(algs) && |algs| < TWO_32 && LogAlgs(algs) != []
    ensures ParseHead(e) == Some(Log(LogAlgs(algs), Some(algs), []))
  {
    SpecIDRoundTrip(algs);
  }

  lemma LogParses(algs: seq<SpecAlg>, ws: seq<WireEvent>)
    requires Loggable(algs, ws)
    ensures ParseLog(LogOf(algs, ws)) == Some(Log(LogAlgs(algs), Some(algs), Numbered(Raws(ws), 1)))
    ensures ParseEvent1(LogOf(algs, ws)).rest == LogBytes(ws)
  {
    var e := RawEvent(0, 0, EV_NO_ACTION, SpecIDBytes(algs), [Digest(SHA1, Copies(0, 20))]);
    var head := Log(LogAlgs(algs), Some(algs), []);
    EventRoundTrip(0, EV_NO_ACTION, Copies(0, 20), SpecIDBytes(algs), LogBytes(ws));
    HeadIs(e, algs);
    LogIs(LogOf(algs, ws), e, LogBytes(ws), head);
    TailRoundTrip(algs, ws);
    TailIsWire(algs, LogBytes(ws));
    CompletedIs(head, Some(Raws(ws)), Numbered(Raws(ws), 1));
  }

  /** Parsing a written log gives back its algorithms and its events, numbered 1, 2, 3, ... */
  lemma LogRoundTrip(algs: seq<SpecAlg>, ws: seq<WireEvent>)
    requires Loggable(algs, ws)
    ensures ParseLog(LogOf(algs, ws)) == Some(Log(LogAlgs(algs), Some(algs), Numbered(Raws(ws), 1)))
    ensures CryptoAgile(LogOf(algs, ws)) && SpecAlgs(LogOf(algs, ws)) == algs
    ensures Wires(LogOf(algs, ws)) == ws
  {
    LogParses(algs, ws);
    TailRoundTrip(algs, ws);
  }

  // ----- Two logs, combined -----

  lemma OneLogAppended(baseAlgs: seq<SpecAlg>, log: bytes)
    requires CryptoAgile(log) && AllWritable(Wires(log)) && forall a | a in SpecAlgs(log) :: a in baseAlgs
    ensures AppendLogs(baseAlgs, [log]) == Some(LogBytes(Canonicals(Wires(log))))
  {
    var none: seq<bytes> := [];
    assert [log][1..] == none && AppendLogs(baseAlgs, none) == Some([]);
    LogParts(log);
    SerializeCanonical(Wires(log), 1);
    BeforeBefore(LogBytes(Canonicals(Wires(log))), [], Some([]));
  }

  lemma OneLog(log: bytes)
    requires CryptoAgile(log)
    ensures AllAgile([log]) && AllWires([log]) == Wires(log)
  {
  }

  lemma OneLogCombined(base: bytes, log: bytes)
    requires CryptoAgile(base) && CryptoAgile(log) && AllWritable(Wires(log))
    requires forall a | a in SpecAlgs(log) :: a in SpecAlgs(base)
    ensures Appended(base, [log]) == Some(base + LogBytes(Canonicals(Wires(log))))
  {
    OneLogAppended(SpecAlgs(base), log);
  }

  lemma OneCanonical(w: WireEvent)
    requires Writable(Raw(w))
    ensures AllWritable([w]) && Canonicals([w]) == [Canonical(w)]
  {
  }

  /** A base log without events, and a log of one event. */
  lemma OneEventAppended(baseAlgs: seq<SpecAlg>, algs: seq<SpecAlg>, w: WireEvent)
    requires Loggable(baseAlgs, []) && Loggable(algs, [w])
    requires Writable(Raw(w)) && forall a | a in algs :: a in baseAlgs
    ensures var base, logs := LogOf(baseAlgs, []), [LogOf(algs, [w])];
            && Appended(base, logs) == Some(base + LogBytes([Canonical(w)]))
            && CryptoAgile(base) && AllAgile(logs) && AllWires(logs) == [w] && SpecAlgs(base) == baseAlgs
  {
    var base, log := LogOf(baseAlgs, []), LogOf(algs, [w]);
    LogRoundTrip(baseAlgs, []);
    LogRoundTrip(algs, [w]);
    OneCanonical(w);
    OneLogCombined(base, log);
    OneLog(log);
  }

  /** It comes back exactly when the base log's entries let its rewritten form be read. */
  lemma OneEventReadIff(baseAlgs: seq<SpecAlg>, algs: seq<SpecAlg>, w: WireEvent)
    requires Loggable(baseAlgs, []) && Loggable(algs, [w])
    requires Writable(Raw(w)) && forall a | a in algs :: a in baseAlgs
    requires |LogOf(baseAlgs, [])| + |LogBytes([Canonical(w)])| < TWO_32
    ensures var base, logs := LogOf(baseAlgs, []), [LogOf(algs, [w])];
            && CryptoAgile(base) && AllAgile(logs) && Appended(base, logs).Some?
            && (ParseLog(Appended(base, logs).value) == Some(Combined(base, logs)) <==> AllRead(baseAlgs, [Canonical(w)]))
  {
    OneEventAppended(baseAlgs, algs, w);
    OneCanonical(w);
    AppendedParses(LogOf(baseAlgs, []), [LogOf(algs, [w])]);
  }

  /** A measurement of PCR 0 with one digest and no data. */
  function OneDigest(id: uint16, d: bytes): WireEvent {
    WireEvent(0, 1, [WireDigest(id, d)], [])
  }

  lemma OneDigestReads(algs: seq<SpecAlg>, id: uint16, d: bytes)
    ensures AllRead(algs, [OneDigest(id, d)]) <==> 0 < |d| == DigestSize(algs, id) && Fits(algs, id, |d| + 4)
    ensures |LogBytes([OneDigest(id, d)])| == 18 + |d|
  {
    var w := OneDigest(id, d);
    AllReadCons(algs, w, []);
    DigestBytesCons(w.digests[0], []);
    LogBytesCons(w, []);
    assert w.digests == [w.digests[0]] + [] && w.digests[1..] == [] && [w] == [w] + [];
    assert Reads(algs, [], 4);
  }

  lemma OneDigestWritable(id: uint16, d: bytes)
    requires Supported(CryptoHashOf(id % 0x100))
    ensures Writable(Raw(OneDigest(id, d)))
    ensures Canonical(OneDigest(id, d)) == OneDigest(AlgID(CryptoHashOf(id % 0x100)), d)
  {
  }

  lemma OneDigestParses(algs: seq<SpecAlg>, id: uint16, d: bytes)
    requires Loggable(algs, [OneDigest(id, d)])
    ensures ParseLog(LogOf(algs, [OneDigest(id, d)])) ==
            Some(Log(LogAlgs(algs), Some(algs), [RawEvent(1, 0, 1, [], [Digest(CryptoHashOf(id % 0x100), d)])]))
  {
    var w := OneDigest(id, d);
    LogRoundTrip(algs, [w]);
    assert RawDigests(w.digests) == [RawDigest(w.digests[0])];
    assert Numbered(Raws([w]), 1) == [Raw(w).(sequence := 1)];
  }

  lemma OneAlg(a: SpecAlg, id: uint16)
    ensures DigestSize([a], id) == if a.id == id then a.size else 0
    ensures a.id == ALG_SHA1 || a.id == ALG_SHA256 ==> LogAlgs([a]) == [a.id]
  {
  }

  /** A log of one algorithm and one measurement. */
  lemma OneAlgLog(a: SpecAlg, d: bytes)
    requires (a.id == ALG_SHA1 || a.id == ALG_SHA256) && 0 < |d| == a.size
    ensures ParseLog(LogOf([a], [OneDigest(a.id, d)])) ==
            Some(Log(LogAlgs([a]), Some([a]), [RawEvent(1, 0, 1, [], [Digest(CryptoHashOf(a.id), d)])]))
  {
    OneAlg(a, a.id);
    OneDigestReads([a], a.id, d);
    assert a.id % 0x100 == a.id;
    OneDigestParses([a], a.id, d);
  }

  lemma TwoAlgs(a: SpecAlg, b: SpecAlg, id: uint16)
    ensures DigestSize([a, b], id) == if b.id == id then b.size else if a.id == id then a.size else 0
    ensures a.id == ALG_SHA1 ==> LogAlgs([a, b]) != []
  {
    OneAlg(a, id);
    assert [a, b][..1] == [a];
  }

  /** An event whose algorithm ID needs more than eight bits is not copied byte for byte. */
  lemma WideIDsAreRewritten()
    ensures var algs := [SpecAlg(0x04, 20), SpecAlg(0x104, 20)];
            var base, logs := LogOf(algs, []), [LogOf(algs, [OneDigest(0x104, Copies(0, 20))])];
            Appended(base, logs).Some? && AllAgile(logs) && Appended(base, logs).value != base + Tails(logs)
  {
    var algs, w := [SpecAlg(0x04, 20), SpecAlg(0x104, 20)], OneDigest(0x104, Copies(0, 20));
    TwoAlgs(algs[0], algs[1], 0x104);
    OneDigestReads(algs, 0x104, Copies(0, 20));
    OneDigestWritable(0x104, Copies(0, 20));
    OneEventAppended(algs, algs, w);
    AppendedBytes(LogOf(algs, []), [LogOf(algs, [w])]);
    assert w in [w] && w.digests[0] in w.digests && !ShortIDs(w);
  }

  /** Neither does it parse to the events of both logs when the narrowed ID has another size. */
  lemma WideIDsAreLost()
    ensures var algs := [SpecAlg(0x04, 20), SpecAlg(0x104, 32)];
            var base, logs := LogOf(algs, []), [LogOf(algs, [OneDigest(0x104, Copies(0, 32))])];
            && CryptoAgile(base) && AllAgile(logs) && Appended(base, logs).Some?
            && ParseLog(Appended(base, logs).value) != Some(Combined(base, logs))
  {
    var algs, w := [SpecAlg(0x04, 20), SpecAlg(0x104, 32)], OneDigest(0x104, Copies(0, 32));
    TwoAlgs(algs[0], algs[1], 0x104);
    TwoAlgs(algs[0], algs[1], 0x04);
    OneDigestReads(algs, 0x104, Copies(0, 32));
    OneDigestReads(algs, 0x04, Copies(0, 32));
    OneDigestWritable(0x104, Copies(0, 32));
    OneEventReadIff(algs, algs, w);
  }

  /** Nor when the base log has a further entry for the algorithm, which asks for room that is not there. */
  lemma AmbiguousSizesAreLost()
    ensures var baseAlgs, algs := [SpecAlg(0x04, 40), SpecAlg(0x04, 20)], [SpecAlg(0x04, 20)];
            var base, logs := LogOf(baseAlgs, []), [LogOf(algs, [OneDigest(0x04, Copies(0, 20))])];
            && CryptoAgile(base) && AllAgile(logs) && Appended(base, logs).Some?
            && ParseLog(Appended(base, logs).value) != Some(Combined(base, logs))
  {
    var baseAlgs, algs, w := [SpecAlg(0x04, 40), SpecAlg(0x04, 20)], [SpecAlg(0x04, 20)], OneDigest(0x04, Copies(0, 20));
    TwoAlgs(baseAlgs[0], baseAlgs[1], 0x04);
    OneAlg(algs[0], 0x04);
    OneDigestReads(algs, 0x04, Copies(0, 20));
    OneDigestReads(baseAlgs, 0x04, Copies(0, 20));
    OneDigestWritable(0x04, Copies(0, 20));
    assert baseAlgs[0] in baseAlgs && !Fits(baseAlgs, 0x04, 24);
    OneEventReadIff(baseAlgs, algs, w);
  }
}
