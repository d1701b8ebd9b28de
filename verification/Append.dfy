/**
 Concatenation of crypto agile logs (attest/eventlog.go: AppendEvents) as the inverse
 of parsing.
 */
module Append {
  import opened Bytes
  import opened Hashing
  import opened Replay
  import opened LogFormat
  import opened EventLogs

  // ----- Serialisation -----

  function DigestBytes(ds: seq<WireDigest>): bytes {
    if ds == [] then [] else Put16(ds[0].algID) + ds[0].data + DigestBytes(ds[1..])
  }

  function DataBytes(data: bytes): bytes {
    Put32(Narrow32(|data|)) + data
  }

  function HeaderBytes(index: uint32, typ: uint32, n: uint32): bytes {
    Put32(index) + Put32(typ) + Put32(n)
  }

  /** An event in the format of section 5.2. */
  function WireBytes(w: WireEvent): bytes {
    HeaderBytes(w.index, w.typ, Narrow32(|w.digests|)) + (DigestBytes(w.digests) + DataBytes(w.data))
  }

  function LogBytes(ws: seq<WireEvent>): bytes {
    if ws == [] then [] else WireBytes(ws[0]) + LogBytes(ws[1..])
  }

  /** The algorithm ID written for a hash. */
  function AlgID(h: LogHash): uint16
    requires Supported(h)
  {
    if h == SHA256 then ALG_SHA256 else ALG_SHA1
  }

  predicate Writable(e: RawEvent) {
    forall d | d in e.digests :: Supported(d.hash)
  }

  function Rewritten(ds: seq<Digest>): (r: seq<WireDigest>)
    requires forall d | d in ds :: Supported(d.hash)
    ensures |r| == |ds|
  {
    seq(|ds|, i requires 0 <= i < |ds| => WireDigest(AlgID(ds[i].hash), ds[i].data))
  }

  function ToWire(e: RawEvent): WireEvent
    requires Writable(e)
  {
    WireEvent(Narrow32(e.index), e.typ, Rewritten(e.digests), e.data)
  }

  function Serialize(raw: seq<RawEvent>): Option<bytes> {
    if raw == [] then Some([])
    else if !Writable(raw[0]) then None
    else Before(WireBytes(ToWire(raw[0])), Serialize(raw[1..]))
  }

  /** The base log followed by the re-serialised events of the others. */
  function AppendLogs(baseAlgs: seq<SpecAlg>, logs: seq<bytes>): Option<bytes> {
    if logs == [] then Some([])
    else
      var log := ParseLog(logs[0]);
      if log == None || log.value.spec == None then None
      else if exists a | a in log.value.spec.value :: a !in baseAlgs then None
      else
        match Serialize(log.value.rawEvents)
        case None => None
        case Some(b) => Before(b, AppendLogs(baseAlgs, logs[1..]))
  }

  function Appended(base: bytes, logs: seq<bytes>): Option<bytes> {
    match ParseLog(base)
    case None => None
    case Some(log) => if log.spec == None then None else Before(base, AppendLogs(log.spec.value, logs))
  }

  // ----- The appending loops -----

  method WriteDigests(digests: seq<Digest>) returns (out: Option<bytes>)
    ensures out.Some? <==> forall d | d in digests :: Supported(d.hash)
    ensures out.Some? ==> out.value == DigestBytes(Rewritten(digests))
  {
    var b: bytes, i := [], 0;
    while i < |digests|
      invariant 0 <= i <= |digests|
      invariant forall d | d in digests[..i] :: Supported(d.hash)
      invariant b == DigestBytes(Rewritten(digests[..i]))
    {
      var d := digests[i];
      if d.hash == NoHash {
        assert d in digests;
        return None;
      }
      TakeOneMore(digests, i);
      var w := WireDigest(AlgID(d.hash), d.data);
      DigestBytesAppend(Rewritten(digests[..i]), w);
      assert Rewritten(digests[..i + 1]) == Rewritten(digests[..i]) + [w];
      b := b + Put16(w.algID) + d.data;
      i := i + 1;
    }
    assert digests[..i] == digests;
    out := Some(b);
  }

  lemma {:induction false} DigestBytesAppend(ds: seq<WireDigest>, d: WireDigest)
    ensures DigestBytes(ds + [d]) == DigestBytes(ds) + Put16(d.algID) + d.data
  {
    if ds == [] {
      assert DigestBytes([d]) == Put16(d.algID) + d.data + [];
    } else {
      var first, more := Put16(ds[0].algID) + ds[0].data, DigestBytes(ds[1..]);
      DigestBytesAppend(ds[1..], d);
      assert (ds + [d])[1..] == ds[1..] + [d];
      assert first + (more + Put16(d.algID) + d.data) == first + more + Put16(d.algID) + d.data;
    }
  }

  method WriteEvents(raw: seq<RawEvent>) returns (out: Option<bytes>)
    ensures out == Serialize(raw)
  {
    var b: bytes, i := [], 0;
    BeforeBefore([], [], Serialize(raw));
    while i < |raw|
      invariant 0 <= i <= |raw|
      invariant Serialize(raw) == Before(b, Serialize(raw[i..]))
    {
      var e := raw[i];
      var digests := WriteDigests(e.digests);
      if digests == None {
        return None;
      }
      var event := HeaderBytes(Narrow32(e.index), e.typ, Narrow32(|e.digests|)) + (digests.value + DataBytes(e.data));
      assert event == WireBytes(ToWire(e));
      BeforeBefore(b, event, Serialize(raw[i + 1..]));
      assert raw[i..][1..] == raw[i + 1..];
      b := b + event;
      i := i + 1;
    }
    BeforeBefore(b, [], Some([]));
    out := Some(b);
  }

  method AppendEvents(base: bytes, additional: seq<bytes>) returns (combined: Option<bytes>)
    ensures combined == Appended(base, additional)
  {
    var baseLog := ParseEventLog(base);
    if baseLog == None || baseLog.value.specIDEvent == None {
      return None;
    }
    var baseAlgs := baseLog.value.specIDEvent.value;
    var out, i := base, 0;
    while i < |additional|
      invariant 0 <= i <= |additional|
      invariant Appended(base, additional) == Before(out, AppendLogs(baseAlgs, additional[i..]))
    {
      var log := ParseEventLog(additional[i]);
      if log == None || log.value.specIDEvent == None {
        return None;
      }
      var covered := Covered(log.value.specIDEvent.value, baseAlgs);
      if !covered {
        return None;
      }
      var events := WriteEvents(log.value.rawEvents);
      if events == None {
        return None;
      }
      BeforeBefore(out, events.value, AppendLogs(baseAlgs, additional[i + 1..]));
      assert additional[i..][1..] == additional[i + 1..];
      out := out + events.value;
      i := i + 1;
    }
    BeforeBefore(out, [], Some([]));
    combined := Some(out);
  }

  method Covered(algs: seq<SpecAlg>, baseAlgs: seq<SpecAlg>) returns (ok: bool)
    ensures ok <==> forall a | a in algs :: a in baseAlgs
  {
    var i := 0;
    while i < |algs|
      invariant 0 <= i <= |algs|
      invariant forall a | a in algs[..i] :: a in baseAlgs
    {
      if algs[i] !in baseAlgs {
        assert algs[i] in algs;
        return false;
      }
      i := i + 1;
    }
    assert algs[..i] == algs;
    ok := true;
  }

  // ----- Parsing consumes exactly what serialising writes -----

  lemma Regroup(a: bytes, b: bytes, c: bytes, d: bytes)
    ensures a + (b + (c + d)) == a + b + c + d
    ensures a + (b + c) == a + b + c
  {
  }

  lemma Glue(b: bytes, n: nat, x: bytes, r1: bytes, y: bytes, r2: bytes)
    requires n <= |b| && b[n..] == x + r1 && r1 == y + r2
    ensures b == b[..n] + (x + y) + r2
  {
  }

  lemma DataConsumed(b: bytes)
    requires ParseData(b).Got?
    ensures b == DataBytes(ParseData(b).value) + ParseData(b).rest
  {
    PutU32(b[..4]);
    Regroup(b[..4], ParseData(b).value, ParseData(b).rest, []);
    assert b == b[..4] + b[4..];
  }

  lemma DigestConsumed(algs: seq<SpecAlg>, b: bytes)
    requires ParseDigest(algs, b).Got?
    ensures var p := ParseDigest(algs, b); b == Put16(p.value.algID) + (p.value.data + p.rest)
  {
    PutU16(b[..2]);
    var rest, size := b[2..], DigestSize(algs, U16(b[..2]));
    DigestSizeListed(algs, U16(b[..2]));
    assert rest == rest[..size] + rest[size..];
    assert b == b[..2] + rest;
  }

  lemma DigestBytesCons(d: WireDigest, ds: seq<WireDigest>)
    ensures DigestBytes([d] + ds) == Put16(d.algID) + d.data + DigestBytes(ds)
  {
  }

  lemma {:induction false} DigestsConsumed(algs: seq<SpecAlg>, n: nat, b: bytes)
    requires ParseDigests(algs, n, b).Got?
    ensures b == DigestBytes(ParseDigests(algs, n, b).value) + ParseDigests(algs, n, b).rest
  {
    if n == 0 {
      assert b == [] + b;
    } else {
      var d := ParseDigest(algs, b);
      var more := ParseDigests(algs, n - 1, d.rest);
      DigestsConsumed(algs, n - 1, d.rest);
      DigestConsumed(algs, b);
      DigestBytesCons(d.value, more.value);
      Regroup(Put16(d.value.algID), d.value.data, DigestBytes(more.value), more.rest);
    }
  }

  lemma HeaderConsumed(b: bytes)
    requires |b| >= 12
    ensures b[..12] == HeaderBytes(U32(b[..4]), U32(b[4..8]), U32(b[8..12]))
  {
    PutU32(b[..4]);
    PutU32(b[4..8]);
    PutU32(b[8..12]);
  }

  lemma WireConsumed(algs: seq<SpecAlg>, b: bytes)
    requires ParseWire(algs, b).Got?
    ensures b == WireBytes(ParseWire(algs, b).value) + ParseWire(algs, b).rest
  {
    var w := ParseWire(algs, b).value;
    var digests := ParseDigests(algs, U32(b[8..12]), b[12..]);
    var data := ParseData(digests.rest);
    DigestsConsumed(algs, U32(b[8..12]), b[12..]);
    DataConsumed(digests.rest);
    HeaderConsumed(b);
    Glue(b, 12, DigestBytes(w.digests), digests.rest, DataBytes(w.data), data.rest);
  }

  /** The events of a crypto agile log as they stand in it. */
  function WireTail(algs: seq<SpecAlg>, b: bytes): Option<seq<WireEvent>>
    decreases |b|
  {
    if b == [] then Some([])
    else
      match ParseWire(algs, b)
      case Fail => None
      case Got(w, rest) => Before([w], WireTail(algs, rest))
  }

  function Raws(ws: seq<WireEvent>): (r: seq<RawEvent>)
    ensures |r| == |ws|
  {
    seq(|ws|, i requires 0 <= i < |ws| => Raw(ws[i]))
  }

  lemma LogBytesCons(w: WireEvent, ws: seq<WireEvent>)
    ensures LogBytes([w] + ws) == WireBytes(w) + LogBytes(ws)
    ensures Raws([w] + ws) == [Raw(w)] + Raws(ws)
  {
  }

  lemma {:induction false} TailIsWire(algs: seq<SpecAlg>, b: bytes)
    ensures ParseTail(Some(algs), b) ==
            (match WireTail(algs, b) case None => None case Some(ws) => Some(Raws(ws)))
    ensures WireTail(algs, b).Some? ==> b == LogBytes(WireTail(algs, b).value)
    decreases |b|
  {
    if b == [] || ParseWire(algs, b) == Fail {
    } else {
      var w, rest := ParseWire(algs, b).value, ParseWire(algs, b).rest;
      TailIsWire(algs, rest);
      if WireTail(algs, rest).Some? {
        WireConsumed(algs, b);
        LogBytesCons(w, WireTail(algs, rest).value);
      }
    }
  }

  // ----- What the combined log says -----

  /** The event as it is written back: algorithm IDs pass through eight bits. */
  function Canonical(w: WireEvent): WireEvent
    requires Writable(Raw(w))
  {
    w.(digests := Rewritten(RawDigests(w.digests)))
  }

  /** Every algorithm ID survives the eight-bit HashAlg. */
  predicate ShortIDs(w: WireEvent) {
    forall d | d in w.digests :: d.algID < 0x100
  }

  lemma WireOfRaw(w: WireEvent, sequence: int)
    requires Writable(Raw(w))
    ensures ToWire(Raw(w).(sequence := sequence)) == Canonical(w)
    ensures ShortIDs(w) <==> Canonical(w) == w
  {
  }

  predicate AllWritable(ws: seq<WireEvent>) {
    forall w | w in ws :: Writable(Raw(w))
  }

  function Canonicals(ws: seq<WireEvent>): (r: seq<WireEvent>)
    requires AllWritable(ws)
    ensures |r| == |ws|
  {
    seq(|ws|, i requires 0 <= i < |ws| => Canonical(ws[i]))
  }

  lemma NumberedCons(ws: seq<WireEvent>, start: int)
    requires ws != []
    ensures Numbered(Raws(ws), start)[0] == Raw(ws[0]).(sequence := start)
    ensures Numbered(Raws(ws), start)[1..] == Numbered(Raws(ws[1..]), start + 1)
  {
  }

  lemma CanonicalsCons(ws: seq<WireEvent>)
    requires ws != [] && AllWritable(ws)
    ensures AllWritable(ws[1..]) && Canonicals(ws)[0] == Canonical(ws[0]) && Canonicals(ws)[1..] == Canonicals(ws[1..])
  {
  }

  /** Re-serialising a parsed log writes its canonical events. */
  lemma {:induction false} SerializeCanonical(ws: seq<WireEvent>, start: int)
    ensures Serialize(Numbered(Raws(ws), start)).Some? <==> AllWritable(ws)
    ensures AllWritable(ws) ==> Serialize(Numbered(Raws(ws), start)).value == LogBytes(Canonicals(ws))
  {
    if ws == [] {
    } else {
      assert ws == [ws[0]] + ws[1..];
      NumberedCons(ws, start);
      SerializeCanonical(ws[1..], start + 1);
      assert Writable(Raw(ws[0])) <==> Writable(Raw(ws[0]).(sequence := start));
      if AllWritable(ws) {
        WireOfRaw(ws[0], start);
        CanonicalsCons(ws);
      }
    }
  }

  /** Two runs of digests that differ at most in their algorithm IDs. */
  predicate SameShape(a: seq<WireDigest>, b: seq<WireDigest>) {
    |a| == |b| && forall i | 0 <= i < |a| :: |a[i].data| == |b[i].data|
  }

  lemma {:induction false} DigestBytesExact(a: seq<WireDigest>, b: seq<WireDigest>)
    requires SameShape(a, b)
    ensures |DigestBytes(a)| == |DigestBytes(b)|
    ensures DigestBytes(a) == DigestBytes(b) <==> a == b
  {
    if a == [] {
    } else {
      DigestBytesExact(a[1..], b[1..]);
      assert a == [a[0]] + a[1..] && b == [b[0]] + b[1..];
      if DigestBytes(a) == DigestBytes(b) {
        SameSplit(Put16(a[0].algID) + a[0].data, DigestBytes(a[1..]), Put16(b[0].algID) + b[0].data, DigestBytes(b[1..]));
        SameSplit(Put16(a[0].algID), a[0].data, Put16(b[0].algID), b[0].data);
        assert U16(Put16(a[0].algID)) == U16(Put16(b[0].algID));
      }
    }
  }

  predicate SameEvents(a: seq<WireEvent>, b: seq<WireEvent>) {
    |a| == |b| && forall i | 0 <= i < |a| ::
      a[i].index == b[i].index && a[i].typ == b[i].typ && a[i].data == b[i].data && SameShape(a[i].digests, b[i].digests)
  }

  lemma WireBytesExact(a: WireEvent, b: WireEvent)
    requires SameEvents([a], [b])
    ensures |WireBytes(a)| == |WireBytes(b)|
    ensures WireBytes(a) == WireBytes(b) <==> a == b
  {
    assert [a][0] == a && [b][0] == b;
    DigestBytesExact(a.digests, b.digests);
    if WireBytes(a) == WireBytes(b) {
      var header := HeaderBytes(a.index, a.typ, Narrow32(|a.digests|));
      SameSplit(header, DigestBytes(a.digests) + DataBytes(a.data), header, DigestBytes(b.digests) + DataBytes(b.data));
      SameSplit(DigestBytes(a.digests), DataBytes(a.data), DigestBytes(b.digests), DataBytes(b.data));
    }
  }

  /** Serialisation separates logs that agree in shape. */
  lemma {:induction false} LogBytesExact(a: seq<WireEvent>, b: seq<WireEvent>)
    requires SameEvents(a, b)
    ensures |LogBytes(a)| == |LogBytes(b)|
    ensures LogBytes(a) == LogBytes(b) <==> a == b
  {
    if a == [] {
    } else {
      WireBytesExact(a[0], b[0]);
      LogBytesExact(a[1..], b[1..]);
      assert a == [a[0]] + a[1..] && b == [b[0]] + b[1..];
      if LogBytes(a) == LogBytes(b) {
        SameSplit(WireBytes(a[0]), LogBytes(a[1..]), WireBytes(b[0]), LogBytes(b[1..]));
      }
    }
  }

  lemma CanonicalsSameEvents(ws: seq<WireEvent>)
    requires AllWritable(ws)
    ensures SameEvents(Canonicals(ws), ws)
    ensures Canonicals(ws) == ws <==> forall w | w in ws :: ShortIDs(w)
    ensures Raws(Canonicals(ws)) == Raws(ws)
  {
    forall i | 0 <= i < |ws|
      ensures ShortIDs(ws[i]) <==> Canonicals(ws)[i] == ws[i]
      ensures Raw(Canonicals(ws)[i]) == Raw(ws[i])
      ensures SameShape(Canonicals(ws)[i].digests, ws[i].digests)
    {
      WireOfRaw(ws[i], 0);
      RawOfCanonical(ws[i]);
    }
    if Canonicals(ws) == ws {
      forall w | w in ws ensures ShortIDs(w) {
        var i :| 0 <= i < |ws| && ws[i] == w;
        assert Canonicals(ws)[i] == ws[i];
      }
    }
  }

  lemma RawOfCanonical(w: WireEvent)
    requires Writable(Raw(w))
    ensures Raw(Canonical(w)) == Raw(w)
  {
  }

  // ----- Parsing reads back exactly what it can size -----

  /** Entries of the spec ID event for one algorithm agree on its digest size. */
  predicate Unambiguous(algs: seq<SpecAlg>) {
    forall a | a in algs :: a.size == DigestSize(algs, a.id)
  }

  /** The reader's digest sizes are those of the event. */
  predicate SizedAs(algs: seq<SpecAlg>, ds: seq<WireDigest>) {
    forall d | d in ds :: 0 < |d.data| == DigestSize(algs, d.algID)
  }

  /** What the reader needs of digests with so many bytes behind them: their sizes, and room for every entry. */
  predicate Reads(algs: seq<SpecAlg>, ds: seq<WireDigest>, after: nat) {
    if ds == [] then true
    else
      && 0 < |ds[0].data| == DigestSize(algs, ds[0].algID)
      && Fits(algs, ds[0].algID, |ds[0].data| + |DigestBytes(ds[1..])| + after)
      && Reads(algs, ds[1..], after)
  }

  /** More bytes behind never hurt. */
  lemma {:induction false} ReadsFurther(algs: seq<SpecAlg>, ds: seq<WireDigest>, after: nat, more: nat)
    requires Reads(algs, ds, after) && after <= more
    ensures Reads(algs, ds, more)
  {
    if ds == [] {
    } else {
      ReadsFurther(algs, ds[1..], after, more);
    }
  }

  lemma {:induction false} UnambiguousReads(algs: seq<SpecAlg>, ds: seq<WireDigest>, after: nat)
    requires Unambiguous(algs) && SizedAs(algs, ds)
    ensures Reads(algs, ds, after)
  {
    if ds == [] {
    } else {
      assert ds[0] in ds;
      UnambiguousReads(algs, ds[1..], after);
    }
  }

  lemma {:induction false} ReadsSized(algs: seq<SpecAlg>, ds: seq<WireDigest>, after: nat)
    requires Reads(algs, ds, after)
    ensures SizedAs(algs, ds)
  {
    if ds == [] {
    } else {
      ReadsSized(algs, ds[1..], after);
      assert ds == [ds[0]] + ds[1..];
    }
  }

  lemma {:induction false} ParsedReads(algs: seq<SpecAlg>, n: nat, b: bytes)
    requires ParseDigests(algs, n, b).Got?
    ensures Reads(algs, ParseDigests(algs, n, b).value, |ParseDigests(algs, n, b).rest|)
  {
    if n == 0 {
    } else {
      var d := ParseDigest(algs, b);
      var more := ParseDigests(algs, n - 1, d.rest);
      DigestSizeListed(algs, d.value.algID);
      DigestsConsumed(algs, n - 1, d.rest);
      ParsedReads(algs, n - 1, d.rest);
      assert ([d.value] + more.value)[1..] == more.value;
    }
  }

  lemma DigestRoundTrip(algs: seq<SpecAlg>, d: WireDigest, rest: bytes)
    requires 0 < |d.data| == DigestSize(algs, d.algID) && Fits(algs, d.algID, |d.data| + |rest|)
    ensures ParseDigest(algs, Put16(d.algID) + (d.data + rest)) == Got(d, rest)
  {
  }

  lemma {:induction false} DigestsRoundTrip(algs: seq<SpecAlg>, ds: seq<WireDigest>, rest: bytes)
    requires Reads(algs, ds, |rest|)
    ensures ParseDigests(algs, |ds|, DigestBytes(ds) + rest) == Got(ds, rest)
  {
    if ds == [] {
      assert DigestBytes(ds) + rest == rest;
    } else {
      assert ds == [ds[0]] + ds[1..];
      DigestsRoundTrip(algs, ds[1..], rest);
      DigestRoundTrip(algs, ds[0], DigestBytes(ds[1..]) + rest);
      Regroup(Put16(ds[0].algID), ds[0].data, DigestBytes(ds[1..]), rest);
    }
  }

  lemma DataRoundTrip(data: bytes, rest: bytes)
    requires |data| + |rest| < TWO_32
    ensures ParseData(DataBytes(data) + rest) == Got(data, rest)
  {
    var b := DataBytes(data) + rest;
    assert b[..4] == Put32(|data|) && b[4..] == data + rest;
    assert (data + rest)[..|data|] == data && (data + rest)[|data|..] == rest;
  }

  lemma HeaderRoundTrip(index: uint32, typ: uint32, n: uint32, rest: bytes)
    ensures var b := HeaderBytes(index, typ, n) + rest;
            |b| >= 12 && U32(b[..4]) == index && U32(b[4..8]) == typ && U32(b[8..12]) == n && b[12..] == rest
  {
    var b := HeaderBytes(index, typ, n) + rest;
    assert b[..4] == Put32(index);
    assert b[4..8] == Put32(typ);
    assert b[8..12] == Put32(n);
  }

  lemma {:induction false} CountBound(ds: seq<WireDigest>)
    ensures |ds| <= |DigestBytes(ds)|
  {
    if ds == [] {
    } else {
      CountBound(ds[1..]);
    }
  }

  predicate ReadsEvent(algs: seq<SpecAlg>, w: WireEvent, after: nat) {
    Reads(algs, w.digests, |DataBytes(w.data)| + after)
  }

  lemma WireRoundTrip(algs: seq<SpecAlg>, w: WireEvent, rest: bytes)
    requires ReadsEvent(algs, w, |rest|)
    requires |WireBytes(w)| + |rest| < TWO_32
    ensures ParseWire(algs, WireBytes(w) + rest) == Got(w, rest)
  {
    CountBound(w.digests);
    HeaderRoundTrip(w.index, w.typ, |w.digests|, DigestBytes(w.digests) + (DataBytes(w.data) + rest));
    DigestsRoundTrip(algs, w.digests, DataBytes(w.data) + rest);
    DataRoundTrip(w.data, rest);
    var header := HeaderBytes(w.index, w.typ, |w.digests|);
    Regroup(header, DigestBytes(w.digests), DataBytes(w.data), rest);
    Regroup(header, DigestBytes(w.digests), DataBytes(w.data), []);
  }

  lemma ReadsEventBefore(algs: seq<SpecAlg>, w: WireEvent, total: nat, after: nat)
    requires Reads(algs, w.digests, total) && total == |DataBytes(w.data)| + after
    ensures ReadsEvent(algs, w, after)
  {
  }

  lemma DataBehindDigests(algs: seq<SpecAlg>, b: bytes)
    requires ParseWire(algs, b).Got?
    ensures var w, digests := ParseWire(algs, b).value, ParseDigests(algs, U32(b[8..12]), b[12..]);
            digests.Got? && w.digests == digests.value
            && |digests.rest| == |DataBytes(w.data)| + |ParseWire(algs, b).rest|
  {
  }

  lemma WireReads(algs: seq<SpecAlg>, b: bytes)
    requires ParseWire(algs, b).Got?
    ensures ReadsEvent(algs, ParseWire(algs, b).value, |ParseWire(algs, b).rest|)
  {
    var w, digests := ParseWire(algs, b).value, ParseDigests(algs, U32(b[8..12]), b[12..]);
    DataBehindDigests(algs, b);
    ParsedReads(algs, U32(b[8..12]), b[12..]);
    ReadsEventBefore(algs, w, |digests.rest|, |ParseWire(algs, b).rest|);
  }

  /** Each event can be read with the others behind it. */
  predicate AllRead(algs: seq<SpecAlg>, ws: seq<WireEvent>) {
    if ws == [] then true else ReadsEvent(algs, ws[0], |LogBytes(ws[1..])|) && AllRead(algs, ws[1..])
  }

  lemma AllReadCons(algs: seq<SpecAlg>, w: WireEvent, ws: seq<WireEvent>)
    ensures AllRead(algs, [w] + ws) <==> ReadsEvent(algs, w, |LogBytes(ws)|) && AllRead(algs, ws)
  {
  }

  lemma {:induction false} TailReads(algs: seq<SpecAlg>, b: bytes)
    requires WireTail(algs, b).Some?
    ensures AllRead(algs, WireTail(algs, b).value)
    decreases |b|
  {
    if b == [] {
    } else {
      var w, rest := ParseWire(algs, b).value, ParseWire(algs, b).rest;
      TailReads(algs, rest);
      TailIsWire(algs, rest);
      WireReads(algs, b);
      AllReadCons(algs, w, WireTail(algs, rest).value);
    }
  }

  lemma TailStep(algs: seq<SpecAlg>, w: WireEvent, rest: bytes)
    requires ReadsEvent(algs, w, |rest|) && |WireBytes(w)| + |rest| < TWO_32
    ensures WireTail(algs, WireBytes(w) + rest) == Before([w], WireTail(algs, rest))
  {
    WireRoundTrip(algs, w, rest);
  }

  lemma {:induction false} TailRoundTrip(algs: seq<SpecAlg>, ws: seq<WireEvent>)
    requires AllRead(algs, ws) && |LogBytes(ws)| < TWO_32
    ensures WireTail(algs, LogBytes(ws)) == Some(ws)
  {
    if ws == [] {
    } else {
      TailRoundTrip(algs, ws[1..]);
      TailStep(algs, ws[0], LogBytes(ws[1..]));
      assert ws == [ws[0]] + ws[1..];
    }
  }

  lemma ReadsEventFurther(algs: seq<SpecAlg>, w: WireEvent, after: nat, more: nat)
    requires ReadsEvent(algs, w, after) && after <= more
    ensures ReadsEvent(algs, w, more)
  {
    ReadsFurther(algs, w.digests, |DataBytes(w.data)| + after, |DataBytes(w.data)| + more);
  }

  /** Events that can be read still can with others behind them. */
  lemma {:induction false} ReadBefore(algs: seq<SpecAlg>, a: seq<WireEvent>, b: seq<WireEvent>)
    requires AllRead(algs, a)
    ensures AllRead(algs, a + b) <==> AllRead(algs, b)
  {
    if a == [] {
      assert a + b == b;
    } else {
      ReadBefore(algs, a[1..], b);
      LogBytesAppend(a[1..], b);
      ReadsEventFurther(algs, a[0], |LogBytes(a[1..])|, |LogBytes(a[1..] + b)|);
      AllReadCons(algs, a[0], a[1..] + b);
      ConsAppend(a, b);
    }
  }

  // ----- The logs that are combined -----

  /** What follows the first event of a log. */
  function Tail(b: bytes): bytes
    requires ParseLog(b).Some?
  {
    ParseEvent1(b).rest
  }

  predicate CryptoAgile(b: bytes) {
    ParseLog(b).Some? && ParseLog(b).value.spec.Some?
  }

  predicate AllAgile(logs: seq<bytes>) {
    forall l | l in logs :: CryptoAgile(l)
  }

  function SpecAlgs(b: bytes): seq<SpecAlg>
    requires CryptoAgile(b)
  {
    ParseLog(b).value.spec.value
  }

  function Wires(b: bytes): seq<WireEvent>
    requires CryptoAgile(b)
  {
    TailIsWire(SpecAlgs(b), Tail(b));
    WireTail(SpecAlgs(b), Tail(b)).value
  }

  function Tails(logs: seq<bytes>): bytes
    requires AllAgile(logs)
  {
    if logs == [] then [] else
    assert CryptoAgile(logs[0]); Tail(logs[0]) + Tails(logs[1..])
  }

  function AllWires(logs: seq<bytes>): seq<WireEvent>
    requires AllAgile(logs)
  {
    if logs == [] then [] else Wires(logs[0]) + AllWires(logs[1..])
  }

  lemma ConsAppend<T>(a: seq<T>, b: seq<T>)
    requires a != []
    ensures a + b == [a[0]] + (a[1..] + b)
  {
  }

  lemma {:induction false} LogBytesAppend(a: seq<WireEvent>, b: seq<WireEvent>)
    ensures LogBytes(a + b) == LogBytes(a) + LogBytes(b)
  {
    if a == [] {
      assert a + b == b;
      assert [] + LogBytes(b) == LogBytes(b);
    } else {
      LogBytesAppend(a[1..], b);
      ConsAppend(a, b);
      LogBytesCons(a[0], a[1..] + b);
      Regroup(WireBytes(a[0]), LogBytes(a[1..]), LogBytes(b), []);
    }
  }

  lemma LogParts(b: bytes)
    requires CryptoAgile(b)
    ensures Tail(b) == LogBytes(Wires(b))
    ensures ParseLog(b).value.rawEvents == Numbered(Raws(Wires(b)), 1)
    ensures AllRead(SpecAlgs(b), Wires(b))
  {
    TailIsWire(SpecAlgs(b), Tail(b));
    TailReads(SpecAlgs(b), Tail(b));
  }

  lemma CanonicalsAppend(a: seq<WireEvent>, b: seq<WireEvent>)
    requires AllWritable(a) && AllWritable(b)
    ensures AllWritable(a + b) && Canonicals(a + b) == Canonicals(a) + Canonicals(b)
  {
  }

  lemma AppendLogsStep(baseAlgs: seq<SpecAlg>, logs: seq<bytes>)
    requires logs != [] && AppendLogs(baseAlgs, logs).Some?
    ensures AppendLogs(baseAlgs, logs[1..]).Some?
    ensures CryptoAgile(logs[0]) && (forall a | a in SpecAlgs(logs[0]) :: a in baseAlgs) && AllWritable(Wires(logs[0]))
    ensures AppendLogs(baseAlgs, logs).value ==
            LogBytes(Canonicals(Wires(logs[0]))) + AppendLogs(baseAlgs, logs[1..]).value
    ensures Tail(logs[0]) == LogBytes(Wires(logs[0]))
  {
    LogParts(logs[0]);
    SerializeCanonical(Wires(logs[0]), 1);
  }

  /** Every digest of the log has a hash function. */
  predicate AllHashed(b: bytes)
    requires CryptoAgile(b)
  {
    forall e, d | e in ParseLog(b).value.rawEvents && d in e.digests :: d.hash == SHA1 || d.hash == SHA256
  }

  lemma {:induction false} SerializesIff(raw: seq<RawEvent>)
    ensures Serialize(raw).Some? <==> forall e, d | e in raw && d in e.digests :: d.hash == SHA1 || d.hash == SHA256
  {
    if raw == [] {
    } else {
      SerializesIff(raw[1..]);
      assert raw == [raw[0]] + raw[1..];
    }
  }

  /** The log can be appended to one with these entries. */
  predicate Appendable(baseAlgs: seq<SpecAlg>, log: bytes) {
    CryptoAgile(log) && AllHashed(log) && forall a | a in SpecAlgs(log) :: a in baseAlgs
  }

  lemma AppendableFirst(baseAlgs: seq<SpecAlg>, logs: seq<bytes>)
    requires logs != []
    ensures AppendLogs(baseAlgs, logs).Some? <==> Appendable(baseAlgs, logs[0]) && AppendLogs(baseAlgs, logs[1..]).Some?
  {
    if CryptoAgile(logs[0]) {
      SerializesIff(ParseLog(logs[0]).value.rawEvents);
    }
  }

  lemma {:induction false} AppendLogsIff(baseAlgs: seq<SpecAlg>, logs: seq<bytes>)
    ensures AppendLogs(baseAlgs, logs).Some? <==> forall l | l in logs :: Appendable(baseAlgs, l)
  {
    if logs == [] {
    } else {
      assert logs == [logs[0]] + logs[1..];
      AppendableFirst(baseAlgs, logs);
      AppendLogsIff(baseAlgs, logs[1..]);
    }
  }

  /**
   Logs can be combined exactly when all are crypto agile, use only the base log's entries, and
   have only digests with a hash function.
   */
  lemma AppendedIff(base: bytes, logs: seq<bytes>)
    ensures Appended(base, logs).Some? <==>
              CryptoAgile(base) && forall l | l in logs :: Appendable(SpecAlgs(base), l)
  {
    if CryptoAgile(base) {
      AppendLogsIff(SpecAlgs(base), logs);
    }
  }

  /** AppendLogs writes the canonical form of all the events it read. */
  lemma {:induction false} AppendLogsMeaning(baseAlgs: seq<SpecAlg>, logs: seq<bytes>)
    requires AppendLogs(baseAlgs, logs).Some?
    ensures AllAgile(logs) && forall l, a | l in logs && a in SpecAlgs(l) :: a in baseAlgs
    ensures AllWritable(AllWires(logs))
    ensures AppendLogs(baseAlgs, logs).value == LogBytes(Canonicals(AllWires(logs)))
    ensures Tails(logs) == LogBytes(AllWires(logs))
  {
    if logs == [] {
    } else {
      AppendLogsStep(baseAlgs, logs);
      AppendLogsMeaning(baseAlgs, logs[1..]);
      var first, rest := Wires(logs[0]), AllWires(logs[1..]);
      assert forall l | l in logs :: l == logs[0] || l in logs[1..];
      assert AllWires(logs) == first + rest;
      CanonicalsAppend(first, rest);
      LogBytesAppend(first, rest);
      LogBytesAppend(Canonicals(first), Canonicals(rest));
    }
  }

  /**
   The combined log has the length of the base log and the events of the others, and is
   byte for byte their concatenation exactly when no algorithm ID needs more than eight bits.
   */
  lemma AppendedBytes(base: bytes, logs: seq<bytes>)
    requires Appended(base, logs).Some?
    ensures AllAgile(logs)
    ensures |Appended(base, logs).value| == |base + Tails(logs)|
    ensures Appended(base, logs).value == base + Tails(logs) <==> forall w | w in AllWires(logs) :: ShortIDs(w)
  {
    var more := AppendLogs(SpecAlgs(base), logs).value;
    AppendLogsMeaning(SpecAlgs(base), logs);
    CanonicalsSameEvents(AllWires(logs));
    LogBytesExact(Canonicals(AllWires(logs)), AllWires(logs));
    if base + more == base + Tails(logs) {
      SameSplit(base, more, base, Tails(logs));
    }
  }

  /** The log an appended log should parse to. */
  function Combined(base: bytes, logs: seq<bytes>): Log
    requires CryptoAgile(base) && AllAgile(logs)
  {
    ParseLog(base).value.(rawEvents := Numbered(Raws(Wires(base) + AllWires(logs)), 1))
  }

  lemma SliceExtends(b: bytes, more: bytes, i: nat, j: nat)
    requires i <= j <= |b|
    ensures (b + more)[i..j] == b[i..j] && (b + more)[j..] == b[j..] + more
  {
  }

  lemma DataExtends(b: bytes, more: bytes)
    requires ParseData(b).Got? && |b| + |more| < TWO_32
    ensures ParseData(b + more) == Got(ParseData(b).value, ParseData(b).rest + more)
  {
    SliceExtends(b, more, 0, 4);
    SliceExtends(b[4..], more, 0, U32(b[..4]));
  }

  lemma Event1Extends(b: bytes, more: bytes)
    requires ParseEvent1(b).Got? && |b| + |more| < TWO_32
    ensures ParseEvent1(b + more) == Got(ParseEvent1(b).value, ParseEvent1(b).rest + more)
  {
    SliceExtends(b, more, 0, 4);
    SliceExtends(b, more, 4, 8);
    SliceExtends(b, more, 8, 28);
    DataExtends(b[28..], more);
  }

  lemma RawsSameEvents(a: seq<WireEvent>, b: seq<WireEvent>)
    requires Raws(a) == Raws(b)
    ensures SameEvents(a, b)
  {
    forall i | 0 <= i < |a|
      ensures a[i].index == b[i].index && a[i].typ == b[i].typ && a[i].data == b[i].data
      ensures SameShape(a[i].digests, b[i].digests)
    {
      assert Raws(a)[i] == Raws(b)[i];
      assert RawDigests(a[i].digests) == RawDigests(b[i].digests);
      forall j | 0 <= j < |a[i].digests| ensures a[i].digests[j].data == b[i].digests[j].data {
        assert RawDigests(a[i].digests)[j] == RawDigests(b[i].digests)[j];
      }
    }
  }

  lemma NumberedInjective(a: seq<WireEvent>, b: seq<WireEvent>)
    requires Numbered(Raws(a), 1) == Numbered(Raws(b), 1)
    ensures Raws(a) == Raws(b)
  {
    forall i | 0 <= i < |a| ensures Raws(a)[i] == Raws(b)[i] {
      assert Numbered(Raws(a), 1)[i] == Numbered(Raws(b), 1)[i];
    }
  }

  lemma TailParsesOnly(algs: seq<SpecAlg>, ws: seq<WireEvent>, parsed: seq<WireEvent>)
    requires WireTail(algs, LogBytes(ws)) == Some(parsed)
    requires Numbered(Raws(parsed), 1) == Numbered(Raws(ws), 1)
    ensures AllRead(algs, ws)
  {
    TailIsWire(algs, LogBytes(ws));
    TailReads(algs, LogBytes(ws));
    NumberedInjective(parsed, ws);
    RawsSameEvents(parsed, ws);
    LogBytesExact(parsed, ws);
  }

  /** What the bytes of events parse to behind the first event of a crypto agile log. */
  lemma TailParses(algs: seq<SpecAlg>, ws: seq<WireEvent>)
    requires |LogBytes(ws)| < TWO_32
    ensures (var raw := ParseTail(Some(algs), LogBytes(ws));
             raw.Some? && Numbered(raw.value, 1) == Numbered(Raws(ws), 1)) <==> AllRead(algs, ws)
  {
    TailIsWire(algs, LogBytes(ws));
    if AllRead(algs, ws) {
      TailRoundTrip(algs, ws);
    } else if WireTail(algs, LogBytes(ws)).Some? {
      var parsed := WireTail(algs, LogBytes(ws)).value;
      if Numbered(Raws(parsed), 1) == Numbered(Raws(ws), 1) {
        TailParsesOnly(algs, ws, parsed);
      }
    }
  }

  lemma RawsAppend(a: seq<WireEvent>, b: seq<WireEvent>)
    ensures Raws(a + b) == Raws(a) + Raws(b)
  {
  }

  /** A crypto agile log before its events are read. */
  function Head(b: bytes): Log
    requires CryptoAgile(b)
  {
    ParseLog(b).value.(rawEvents := [])
  }

  lemma HeadOf(b: bytes)
    requires CryptoAgile(b)
    ensures ParseHead(ParseEvent1(b).value) == Some(Head(b))
  {
  }

  /** Behind the first event of a log, other events are parsed in its place. */
  lemma HeadParses(base: bytes, more: bytes)
    requires CryptoAgile(base) && |base| + |more| < TWO_32
    ensures ParseLog(base + more) == Completed(Head(base), ParseTail(Head(base).spec, Tail(base) + more))
  {
    HeadOf(base);
    Event1Extends(base, more);
  }

  lemma CompletedIs(head: Log, tail: Option<seq<RawEvent>>, raw: seq<RawEvent>)
    requires head.rawEvents == []
    ensures Completed(head, tail) == Some(head.(rawEvents := raw)) <==> tail.Some? && Numbered(tail.value, 1) == raw
  {
    if tail.Some? {
      assert [] + Numbered(tail.value, 1) == Numbered(tail.value, 1);
    }
  }

  /**
   A combined log of less than 4 GiB parses to the base log's events followed by those of
   the others, renumbered 1, 2, 3, ..., exactly when the base log sizes every digest of the
   others as it is written back.
   */
  lemma AppendedParses(base: bytes, logs: seq<bytes>)
    requires Appended(base, logs).Some? && |Appended(base, logs).value| < TWO_32
    ensures AllAgile(logs)
    ensures AllWritable(AllWires(logs))
    ensures ParseLog(Appended(base, logs).value) == Some(Combined(base, logs)) <==>
              AllRead(SpecAlgs(base), Canonicals(AllWires(logs)))
  {
    var algs := SpecAlgs(base);
    AppendLogsMeaning(algs, logs);
    var own, more := Wires(base), Canonicals(AllWires(logs));
    CanonicalsSameEvents(AllWires(logs));
    LogParts(base);
    LogBytesAppend(own, more);
    RawsAppend(own, more);
    RawsAppend(own, AllWires(logs));
    HeadParses(base, LogBytes(more));
    CompletedIs(Head(base), ParseTail(Some(algs), LogBytes(own + more)), Numbered(Raws(own + AllWires(logs)), 1));
    TailParses(algs, own + more);
    ReadBefore(algs, own, more);
  }

  lemma {:induction false} AllSizedRead(algs: seq<SpecAlg>, ws: seq<WireEvent>)
    requires Unambiguous(algs) && forall w | w in ws :: SizedAs(algs, w.digests)
    ensures AllRead(algs, ws)
  {
    if ws == [] {
    } else {
      assert ws[0] in ws;
      UnambiguousReads(algs, ws[0].digests, |DataBytes(ws[0].data)| + |LogBytes(ws[1..])|);
      AllSizedRead(algs, ws[1..]);
    }
  }

  lemma {:induction false} ReadSized(algs: seq<SpecAlg>, ws: seq<WireEvent>)
    requires AllRead(algs, ws)
    ensures forall w | w in ws :: SizedAs(algs, w.digests)
  {
    if ws == [] {
    } else {
      assert ws == [ws[0]] + ws[1..];
      ReadsSized(algs, ws[0].digests, |DataBytes(ws[0].data)| + |LogBytes(ws[1..])|);
      ReadSized(algs, ws[1..]);
    }
  }

  lemma {:induction false} AllWiresSized(algs: seq<SpecAlg>, logs: seq<bytes>)
    requires AllAgile(logs) && forall l, a | l in logs && a in SpecAlgs(l) :: a in algs
    requires Unambiguous(algs)
    ensures forall w | w in AllWires(logs) :: SizedAs(algs, w.digests)
  {
    if logs == [] {
    } else {
      assert logs == [logs[0]] + logs[1..];
      AllWiresSized(algs, logs[1..]);
      LogParts(logs[0]);
      ReadSized(SpecAlgs(logs[0]), Wires(logs[0]));
      forall w, d | w in Wires(logs[0]) && d in w.digests ensures 0 < |d.data| == DigestSize(algs, d.algID) {
        DigestSizeListed(SpecAlgs(logs[0]), d.algID);
      }
    }
  }

  /** With distinct spec entries and eight-bit algorithm IDs, appending is concatenation and parses as such. */
  lemma AppendRoundTrip(base: bytes, logs: seq<bytes>)
    requires Appended(base, logs).Some? && |Appended(base, logs).value| < TWO_32
    requires Unambiguous(SpecAlgs(base)) && forall a | a in SpecAlgs(base) :: a.id < 0x100
    ensures AllAgile(logs)
    ensures Appended(base, logs).value == base + Tails(logs)
    ensures ParseLog(Appended(base, logs).value) == Some(Combined(base, logs))
  {
    var algs := SpecAlgs(base);
    AppendLogsMeaning(algs, logs);
    AllWiresSized(algs, logs);
    AllSizedRead(algs, AllWires(logs));
    forall w | w in AllWires(logs) ensures ShortIDs(w) {
      forall d | d in w.digests ensures d.algID < 0x100 {
        DigestSizeListed(algs, d.algID);
      }
    }
    CanonicalsSameEvents(AllWires(logs));
    AppendedBytes(base, logs);
    AppendedParses(base, logs);
  }
}
