/**
 Where the fields of an event log stand in its bytes (attest/eventlog.go: ParseEventLog,
 parseSpecIDEvent, parseRawEvent, parseRawEvent2), for all bytes: what is accepted, and as what.
 */
module LogLayout {
  import opened Bytes
  import opened Hashing
  import opened Replay
  import opened LogFormat
  import opened EventLogs
  import opened Append
  import opened AppendExamples

  /** The 16-bit field at position i, least significant byte first. */
  function Half(b: bytes, i: nat): uint16
    requires i + 2 <= |b|
  {
    var x: int, y: int := b[i], b[i + 1];
    x + 0x100 * y
  }

  /** The 32-bit field at position i. */
  function Word(b: bytes, i: nat): uint32
    requires i + 4 <= |b|
  {
    var x: int, y: int, z: int, w: int := b[i], b[i + 1], b[i + 2], b[i + 3];
    x + 0x100 * y + 0x1_0000 * z + 0x100_0000 * w
  }

  lemma HalfAt(b: bytes, i: nat)
    requires i + 2 <= |b|
    ensures U16(b[i..i + 2]) == Half(b, i)
  {
    assert b[i..i + 2] == [b[i], b[i + 1]];
    U16Of(b[i], b[i + 1]);
  }

  lemma WordAt(b: bytes, i: nat)
    requires i + 4 <= |b|
    ensures U32(b[i..i + 4]) == Word(b, i)
  {
    assert b[i..i + 4] == [b[i], b[i + 1], b[i + 2], b[i + 3]];
    U32Of(b[i], b[i + 1], b[i + 2], b[i + 3]);
  }

  // ----- Section 5.1: index, type, digest of 20 bytes, data behind its length -----

  lemma DataIff(b: bytes, data: bytes, rest: bytes)
    ensures ParseData(b) == Got(data, rest) <==>
              && |b| >= 4 && Word(b, 0) <= (|b| - 4) % 0x1_0000_0000
              && data == b[4..4 + Word(b, 0)] && rest == b[4 + Word(b, 0)..]
  {
    if |b| >= 4 {
      WordAt(b, 0);
      assert b[..4] == b[0..4];
      if U32(b[..4]) <= |b| - 4 {
        assert b[4..][..U32(b[..4])] == b[4..4 + U32(b[..4])] && b[4..][U32(b[..4])..] == b[4 + U32(b[..4])..];
      }
    }
  }

  lemma Event1Iff(b: bytes, e: RawEvent, rest: bytes)
    ensures ParseEvent1(b) == Got(e, rest) <==>
              && |b| >= 32 && Word(b, 28) <= (|b| - 32) % 0x1_0000_0000
              && e == RawEvent(0, Word(b, 0), Word(b, 4), b[32..32 + Word(b, 28)], [Digest(SHA1, b[8..28])])
              && rest == b[32 + Word(b, 28)..]
  {
    if |b| >= 32 {
      WordAt(b, 0);
      WordAt(b, 4);
      DataIff(b[28..], e.data, rest);
      assert b[..4] == b[0..4] && Word(b[28..], 0) == Word(b, 28);
      if Word(b, 28) <= |b| - 32 {
        assert b[28..][4..4 + Word(b, 28)] == b[32..32 + Word(b, 28)];
        assert b[28..][4 + Word(b, 28)..] == b[32 + Word(b, 28)..];
      }
    }
  }

  // ----- The spec ID event -----

  /** ID and size of each algorithm. */
  predicate EntriesAt(b: bytes, algs: seq<SpecAlg>)
    requires |b| >= 4 * |algs|
  {
    forall i | 0 <= i < |algs| :: algs[i] == SpecAlg(Half(b, 4 * i), Half(b, 4 * i + 2))
  }

  lemma FirstEntry(b: bytes, more: seq<SpecAlg>)
    requires |b| >= 4 + 4 * |more| && EntriesAt(b[4..], more)
    ensures EntriesAt(b, [SpecAlg(U16(b[..2]), U16(b[2..4]))] + more)
  {
    HalfAt(b, 0);
    HalfAt(b, 2);
    var algs := [SpecAlg(U16(b[..2]), U16(b[2..4]))] + more;
    assert b[..2] == b[0..2];
    forall i | 0 <= i < |algs| ensures algs[i] == SpecAlg(Half(b, 4 * i), Half(b, 4 * i + 2)) {
      if i > 0 {
        assert more[i - 1] == SpecAlg(Half(b[4..], 4 * (i - 1)), Half(b[4..], 4 * (i - 1) + 2));
      }
    }
  }

  lemma {:induction false} SpecAlgsAre(n: nat, b: bytes)
    ensures ParseSpecAlgs(n, b).Got? <==> |b| >= 4 * n
    ensures |b| >= 4 * n ==>
              var p := ParseSpecAlgs(n, b); |p.value| == n && p.rest == b[4 * n..] && EntriesAt(b, p.value)
  {
    if n == 0 {
      assert b[0..] == b;
    } else if |b| >= 4 {
      SpecAlgsAre(n - 1, b[4..]);
      if |b| >= 4 * n {
        FirstEntry(b, ParseSpecAlgs(n - 1, b[4..]).value);
        assert b[4..][4 * (n - 1)..] == b[4 * n..];
      }
    }
  }

  lemma SameEntries(b: bytes, x: seq<SpecAlg>, y: seq<SpecAlg>)
    requires |x| == |y| && |b| >= 4 * |x| && EntriesAt(b, x) && EntriesAt(b, y)
    ensures x == y
  {
  }

  /** Signature, version 2.0, entries, and vendor data of the announced length up to the end. */
  predicate SpecIDOf(d: bytes, algs: seq<SpecAlg>) {
    && |d| > 28 + 4 * |algs|
    && d[..16] == Ascii("Spec ID Event03") + [0] && d[20] == 0 && d[21] == 2
    && Word(d, 24) == |algs|
    && EntriesAt(d[28..], algs)
    && |d| == 29 + 4 * |algs| + d[28 + 4 * |algs|]
  }

  lemma SpecIDIff(d: bytes, algs: seq<SpecAlg>)
    ensures ParseSpecID(d) == Some(algs) <==> SpecIDOf(d, algs)
  {
    assert SPEC_ID_SIGNATURE == Ascii("Spec ID Event03") + [0];
    if |d| >= 28 {
      WordAt(d, 24);
      SpecAlgsAre(Word(d, 24), d[28..]);
      if |d| > 28 + 4 * Word(d, 24) {
        assert d[28..][4 * Word(d, 24)..] == d[28 + 4 * Word(d, 24)..];
        if Word(d, 24) == |algs| && EntriesAt(d[28..], algs) {
          SameEntries(d[28..], algs, ParseSpecAlgs(Word(d, 24), d[28..]).value);
        }
      }
    }
  }

  // ----- Section 5.2: index, type, count and digests, data -----

  /** The last entry for an algorithm. */
  predicate LastEntry(algs: seq<SpecAlg>, id: uint16, k: nat)
    requires k < |algs|
  {
    algs[k].id == id && forall j | k < j < |algs| :: algs[j].id != id
  }

  lemma {:induction false} DigestSizeIs(algs: seq<SpecAlg>, id: uint16, size: uint16)
    requires size > 0
    ensures DigestSize(algs, id) == size <==> exists k | 0 <= k < |algs| :: LastEntry(algs, id, k) && algs[k].size == size
  {
    if algs == [] {
    } else {
      var front, last := algs[..|algs| - 1], algs[|algs| - 1];
      DigestSizeIs(front, id, size);
      if last.id == id {
        assert LastEntry(algs, id, |front|);
      } else {
        assert forall k | 0 <= k < |front| :: LastEntry(algs, id, k) <==> LastEntry(front, id, k);
        assert !LastEntry(algs, id, |front|);
      }
    }
  }

  /** A digest has the size of the last entry for its ID, and every entry for it must fit into what is left. */
  lemma DigestIff(algs: seq<SpecAlg>, b: bytes, d: WireDigest, rest: bytes)
    ensures ParseDigest(algs, b) == Got(d, rest) <==>
              && |b| >= 2 && d.algID == Half(b, 0) && b[2..] == d.data + rest && d.data != []
              && (exists k | 0 <= k < |algs| :: LastEntry(algs, d.algID, k) && algs[k].size == |d.data|)
              && forall a | a in algs && a.id == d.algID :: a.size <= |b| - 2
  {
    if |b| >= 2 {
      HalfAt(b, 0);
      assert b[..2] == b[0..2];
      var size := DigestSize(algs, Half(b, 0));
      DigestSizeListed(algs, Half(b, 0));
      if 0 < size <= |b| - 2 {
        assert b[2..] == b[2..][..size] + b[2..][size..];
        DigestSizeIs(algs, Half(b, 0), size);
      }
      if 0 < |d.data| < 0x1_0000 {
        DigestSizeIs(algs, Half(b, 0), |d.data|);
        assert (d.data + rest)[..|d.data|] == d.data && (d.data + rest)[|d.data|..] == rest;
      }
    }
  }

  /** The hash of a digest follows from the low byte of its ID: 4 for SHA1, 11 for SHA256, none for others. */
  lemma DigestHash(d: WireDigest)
    ensures RawDigest(d).data == d.data
    ensures RawDigest(d).hash == SHA1 <==> d.algID % 256 == 4
    ensures RawDigest(d).hash == SHA256 <==> d.algID % 256 == 11
    ensures RawDigest(d).hash != SHA1 && RawDigest(d).hash != SHA256 ==> RawDigest(d).hash == NoHash
  {
  }

  /** The i-th digest stands at this position, behind its ID. */
  predicate DigestStands(b: bytes, at: nat, d: WireDigest) {
    at + 2 + |d.data| <= |b| && Half(b, at) == d.algID && b[at + 2..at + 2 + |d.data|] == d.data
  }

  lemma FirstStands(d: WireDigest, more: bytes)
    ensures DigestStands(Put16(d.algID) + d.data + more, 0, d)
  {
    var b := Put16(d.algID) + d.data + more;
    HalfAt(b, 0);
    assert b[0..2] == Put16(d.algID);
  }

  lemma StandsBehind(a: bytes, b: bytes, at: nat, d: WireDigest)
    requires DigestStands(b, at, d)
    ensures DigestStands(a + b, |a| + at, d)
  {
  }

  /** Each digest stands where the digests before it end. */
  lemma {:induction false} DigestAt(ds: seq<WireDigest>, i: nat)
    requires i < |ds|
    ensures DigestStands(DigestBytes(ds), |DigestBytes(ds[..i])|, ds[i])
    ensures |DigestBytes(ds[..i + 1])| == |DigestBytes(ds[..i])| + 2 + |ds[i].data|
  {
    var d, more := ds[0], ds[1..];
    if i == 0 {
      FirstStands(d, DigestBytes(more));
      assert ds[..1] == [d] + ds[..0];
      DigestBytesCons(d, ds[..0]);
    } else {
      DigestAt(more, i - 1);
      assert ds[..i] == [d] + more[..i - 1] && ds[..i + 1] == [d] + more[..i];
      DigestBytesCons(d, more[..i - 1]);
      DigestBytesCons(d, more[..i]);
      StandsBehind(Put16(d.algID) + d.data, DigestBytes(more), |DigestBytes(more[..i - 1])|, ds[i]);
    }
  }

  /** Three 32-bit numbers in a row. */
  lemma HeaderAt(index: uint32, typ: uint32, n: uint32)
    ensures var b := HeaderBytes(index, typ, n); |b| == 12 && Word(b, 0) == index && Word(b, 4) == typ && Word(b, 8) == n
  {
    var b := HeaderBytes(index, typ, n);
    WordAt(b, 0);
    WordAt(b, 4);
    WordAt(b, 8);
    assert b[0..4] == Put32(index) && b[4..8] == Put32(typ) && b[8..12] == Put32(n);
  }

  lemma DataAt(data: bytes)
    requires |data| < 0x1_0000_0000
    ensures |DataBytes(data)| == 4 + |data| && Word(DataBytes(data), 0) == |data| && DataBytes(data)[4..] == data
  {
    WordAt(DataBytes(data), 0);
    assert DataBytes(data)[0..4] == Put32(|data|);
  }

  lemma WordWithin(a: bytes, b: bytes, c: bytes, i: nat)
    requires i + 4 <= |b|
    ensures Word(a + (b + c), |a| + i) == Word(b, i)
    ensures Word(b + c, i) == Word(b, i)
  {
  }

  lemma ThreeParts(a: bytes, b: bytes, c: bytes)
    requires |c| >= 4
    ensures (a + (b + c))[|a|..|a| + |b|] == b
    ensures (a + (b + c))[|a| + |b| + 4..] == c[4..]
    ensures Word(a + (b + c), |a| + |b|) == Word(c, 0)
  {
  }

  /** Index, type, count, the digests, and the data behind its length. */
  lemma WireAt(w: WireEvent)
    requires |w.digests| < 0x1_0000_0000 && |w.data| < 0x1_0000_0000
    ensures var b, n := WireBytes(w), |DigestBytes(w.digests)|;
            && |b| == 12 + n + 4 + |w.data|
            && Word(b, 0) == w.index && Word(b, 4) == w.typ && Word(b, 8) == |w.digests|
            && b[12..12 + n] == DigestBytes(w.digests)
            && Word(b, 12 + n) == |w.data| && b[16 + n..] == w.data
  {
    var header, digests, data := HeaderBytes(w.index, w.typ, |w.digests|), DigestBytes(w.digests), DataBytes(w.data);
    HeaderAt(w.index, w.typ, |w.digests|);
    DataAt(w.data);
    WordWithin([], header, digests + data, 0);
    WordWithin([], header, digests + data, 4);
    WordWithin([], header, digests + data, 8);
    ThreeParts(header, digests, data);
  }

  /** An event of this format is what is parsed exactly when its digests can be read. */
  lemma WireIff(algs: seq<SpecAlg>, b: bytes, w: WireEvent, rest: bytes)
    requires |b| < 0x1_0000_0000
    ensures ParseWire(algs, b) == Got(w, rest) <==> b == WireBytes(w) + rest && ReadsEvent(algs, w, |rest|)
  {
    if ParseWire(algs, b) == Got(w, rest) {
      WireConsumed(algs, b);
      WireReads(algs, b);
    }
    if b == WireBytes(w) + rest && ReadsEvent(algs, w, |rest|) {
      WireRoundTrip(algs, w, rest);
    }
  }

  lemma Put16Of(x: byte, y: byte)
    ensures Put16(x + 0x100 * y) == [x, y]
  {
    U16Of(x, y);
    PutU16([x, y]);
  }

  lemma Put32Of(x: byte, y: byte, z: byte, w: byte)
    ensures Put32(x + 0x100 * y + 0x1_0000 * z + 0x100_0000 * w) == [x, y, z, w]
  {
    U32Of(x, y, z, w);
    PutU32([x, y, z, w]);
  }

  // ----- Whole logs -----

  /** The algorithms of a log are the entries with ID 4 or 11. */
  lemma AlgsOf(spec: seq<SpecAlg>, a: byte)
    ensures a in LogAlgs(spec) <==> (a == 4 || a == 11) && exists s | s in spec :: s.id == a
  {
  }

  lemma FirstEvent1(b: bytes)
    requires ParseEvent1(b).Got?
    ensures |b| >= 32 && 32 + Word(b, 28) <= |b|
    ensures ParseEvent1(b).value ==
            RawEvent(0, Word(b, 0), Word(b, 4), b[32..32 + Word(b, 28)], [Digest(SHA1, b[8..28])])
  {
    Event1Iff(b, ParseEvent1(b).value, ParseEvent1(b).rest);
  }

  /** Which format a log has is decided by its first event: type 3 and data of at least 28 bytes. */
  lemma FormatOf(b: bytes)
    requires ParseLog(b).Some?
    ensures |b| >= 32 && 32 + Word(b, 28) <= |b|
    ensures ParseLog(b).value.spec == None <==> Word(b, 4) != 3 || Word(b, 28) < 28
    ensures ParseLog(b).value.spec.Some? ==> SpecIDOf(b[32..32 + Word(b, 28)], ParseLog(b).value.spec.value)
  {
    FirstEvent1(b);
    var e := ParseEvent1(b).value;
    if IsSpecID(e) {
      SpecIDIff(e.data, ParseSpecID(e.data).value);
    }
  }

  /** Events are numbered in log order: from 0 in the SHA1 format, from 1 behind a spec ID event. */
  lemma SequenceOf(b: bytes, i: nat)
    requires ParseLog(b).Some? && i < |ParseLog(b).value.rawEvents|
    ensures var log := ParseLog(b).value;
            && (log.spec == None ==> log.algs == [4])
            && log.rawEvents[i].sequence == if log.spec == None then i else i + 1
  {
  }

  // ----- Logs, byte by byte -----

  /** Two events: of type 8 in PCR 0 with the data 1, 2, 3, 4, and of type 3 in PCR 5 without data. */
  lemma Sha1Log()
    ensures ParseLog([0, 0, 0, 0, 8, 0, 0, 0] + Copies(7, 20) + [4, 0, 0, 0] + [1, 2, 3, 4] +
                     ([5, 0, 0, 0, 3, 0, 0, 0] + Copies(9, 20) + [0, 0, 0, 0])) ==
            Some(Log([4], None, [RawEvent(0, 0, 8, [1, 2, 3, 4], [Digest(SHA1, Copies(7, 20))]),
                                 RawEvent(1, 5, 3, [], [Digest(SHA1, Copies(9, 20))])]))
  {
    var a := [0, 0, 0, 0, 8, 0, 0, 0] + Copies(7, 20) + [4, 0, 0, 0] + [1, 2, 3, 4];
    var c := [5, 0, 0, 0, 3, 0, 0, 0] + Copies(9, 20) + [0, 0, 0, 0];
    var d := RawEvent(0, 0, 8, [1, 2, 3, 4], [Digest(SHA1, Copies(7, 20))]);
    var e := RawEvent(0, 5, 3, [], [Digest(SHA1, Copies(9, 20))]);
    SmallEvent(0, 8, Copies(7, 20), [1, 2, 3, 4], c);
    SmallEvent(5, 3, Copies(9, 20), [], []);
    assert c + [] + [] == c;
    TwoEvents(a + c, c, d, e);
  }

  /** An event of the SHA1 format whose numbers are below 256. */
  lemma SmallEvent(index: byte, typ: byte, digest: bytes, data: bytes, rest: bytes)
    requires |digest| == 20 && |data| < 256 && |rest| < 1000
    ensures ParseEvent1([index, 0, 0, 0, typ, 0, 0, 0] + digest + [|data|, 0, 0, 0] + data + rest) ==
            Got(RawEvent(0, index, typ, data, [Digest(SHA1, digest)]), rest)
  {
    Put32Of(index, 0, 0, 0);
    Put32Of(typ, 0, 0, 0);
    Put32Of(|data|, 0, 0, 0);
    var numbers := [index, 0, 0, 0, typ, 0, 0, 0];
    assert Put32(index) + Put32(typ) == numbers;
    Regroup(numbers + digest, [|data|, 0, 0, 0], data, rest);
    EventRoundTrip(index, typ, digest, data, rest);
  }

  lemma TwoEvents(b: bytes, c: bytes, d: RawEvent, e: RawEvent)
    requires ParseEvent1(b) == Got(d, c) && ParseEvent1(c) == Got(e, []) && c != []
    requires d.typ != 3
    ensures ParseLog(b) == Some(Log([4], None, [d, e.(sequence := 1)]))
  {
    assert ParseTail(None, []) == Some([]) && [e] + [] == [e];
    assert ParseTail(None, c) == Some([e]);
    assert Numbered([e], 1) == [e.(sequence := 1)] && [d] + [e.(sequence := 1)] == [d, e.(sequence := 1)];
  }

  /** A spec ID event for SHA1 and SHA256 without vendor data, of 37 bytes. */
  const SPEC_ID_EXAMPLE: bytes :=
    Ascii("Spec ID Event03") + [0] + [0, 0, 0, 0, 0, 2, 0, 2] + [2, 0, 0, 0] + ([4, 0, 20, 0, 11, 0, 32, 0] + [0])

  /** One event of type 8 in PCR 4, with digests of both and the data 1, 2, 3. */
  function EventExample(x: bytes, y: bytes): bytes {
    [4, 0, 0, 0, 8, 0, 0, 0, 2, 0, 0, 0] + ([4, 0] + x + ([11, 0] + y) + ([3, 0, 0, 0] + [1, 2, 3]))
  }

  const EXAMPLE_ALGS := [SpecAlg(4, 20), SpecAlg(11, 32)]

  function WireExample(x: bytes, y: bytes): WireEvent {
    WireEvent(4, 8, [WireDigest(4, x), WireDigest(11, y)], [1, 2, 3])
  }

  lemma SpecIDExample()
    ensures SpecIDBytes(EXAMPLE_ALGS) == SPEC_ID_EXAMPLE
  {
    Put16Of(4, 0);
    Put16Of(20, 0);
    Put16Of(11, 0);
    Put16Of(32, 0);
    Put32Of(2, 0, 0, 0);
    assert EXAMPLE_ALGS[1..] == [SpecAlg(11, 32)] && EXAMPLE_ALGS[1..][1..] == [];
    assert AlgBytes(EXAMPLE_ALGS[1..]) == [11, 0] + [32, 0] + [];
    assert AlgBytes(EXAMPLE_ALGS) == [4, 0, 20, 0, 11, 0, 32, 0];
    assert SPEC_ID_SIGNATURE == Ascii("Spec ID Event03") + [0];
  }

  lemma ExampleHeader()
    ensures HeaderBytes(4, 8, 2) == [4, 0, 0, 0, 8, 0, 0, 0, 2, 0, 0, 0]
    ensures DataBytes([1, 2, 3]) == [3, 0, 0, 0] + [1, 2, 3]
  {
    Put32Of(4, 0, 0, 0);
    Put32Of(8, 0, 0, 0);
    Put32Of(2, 0, 0, 0);
    Put32Of(3, 0, 0, 0);
  }

  lemma ExampleDigests(x: bytes, y: bytes)
    ensures DigestBytes([WireDigest(4, x), WireDigest(11, y)]) == [4, 0] + x + ([11, 0] + y)
  {
    var none: seq<WireDigest> := [];
    Put16Of(4, 0);
    Put16Of(11, 0);
    DigestBytesCons(WireDigest(11, y), none);
    DigestBytesCons(WireDigest(4, x), [WireDigest(11, y)]);
    assert [WireDigest(11, y)] + none == [WireDigest(11, y)];
    assert [WireDigest(4, x)] + [WireDigest(11, y)] == [WireDigest(4, x), WireDigest(11, y)];
    assert [11, 0] + y + [] == [11, 0] + y;
  }

  lemma EventExampleIs(x: bytes, y: bytes)
    ensures WireBytes(WireExample(x, y)) == EventExample(x, y)
  {
    ExampleHeader();
    ExampleDigests(x, y);
  }

  lemma ExampleReads(x: bytes, y: bytes)
    requires |x| == 20 && |y| == 32
    ensures AllRead(EXAMPLE_ALGS, [WireExample(x, y)])
  {
    var w := WireExample(x, y);
    TwoAlgs(EXAMPLE_ALGS[0], EXAMPLE_ALGS[1], 4);
    TwoAlgs(EXAMPLE_ALGS[0], EXAMPLE_ALGS[1], 11);
    UnambiguousReads(EXAMPLE_ALGS, w.digests, |DataBytes(w.data)|);
    AllReadCons(EXAMPLE_ALGS, w, []);
    assert [w] + [] == [w] && LogBytes([]) == [];
  }

  lemma ExampleAlgs()
    ensures LogAlgs(EXAMPLE_ALGS) == [4, 11]
  {
    assert EXAMPLE_ALGS[..1] == [SpecAlg(4, 20)];
    OneAlg(SpecAlg(4, 20), 4);
  }

  lemma ExampleRaw(x: bytes, y: bytes)
    ensures Numbered(Raws([WireExample(x, y)]), 1) == [RawEvent(1, 4, 8, [1, 2, 3], [Digest(SHA1, x), Digest(SHA256, y)])]
  {
    var w := WireExample(x, y);
    assert RawDigests(w.digests) == [RawDigest(w.digests[0]), RawDigest(w.digests[1])];
    assert Numbered(Raws([w]), 1) == [Raw(w).(sequence := 1)];
  }

  lemma LogExampleIs(x: bytes, y: bytes)
    ensures LogOf(EXAMPLE_ALGS, [WireExample(x, y)]) ==
            [0, 0, 0, 0, 3, 0, 0, 0] + Copies(0, 20) + [37, 0, 0, 0] + SPEC_ID_EXAMPLE + EventExample(x, y)
  {
    var w := WireExample(x, y);
    SpecIDExample();
    EventExampleIs(x, y);
    Put32Of(0, 0, 0, 0);
    Put32Of(3, 0, 0, 0);
    Put32Of(37, 0, 0, 0);
    assert LogBytes([w]) == WireBytes(w) + [] == EventExample(x, y);
    assert DataBytes(SPEC_ID_EXAMPLE) == [37, 0, 0, 0] + SPEC_ID_EXAMPLE;
    assert [0, 0, 0, 0] + [3, 0, 0, 0] == [0, 0, 0, 0, 3, 0, 0, 0];
    Regroup([0, 0, 0, 0, 3, 0, 0, 0] + Copies(0, 20), [37, 0, 0, 0], SPEC_ID_EXAMPLE, []);
  }

  /** A log of the two events reads as what they say, for all digests x and y. */
  lemma AgileLog(x: bytes, y: bytes)
    requires |x| == 20 && |y| == 32
    ensures ParseLog([0, 0, 0, 0, 3, 0, 0, 0] + Copies(0, 20) + [37, 0, 0, 0] + SPEC_ID_EXAMPLE + EventExample(x, y)) ==
            Some(Log([4, 11], Some([SpecAlg(4, 20), SpecAlg(11, 32)]),
                     [RawEvent(1, 4, 8, [1, 2, 3], [Digest(SHA1, x), Digest(SHA256, y)])]))
  {
    ExampleReads(x, y);
    ExampleAlgs();
    LogExampleIs(x, y);
    LogParses(EXAMPLE_ALGS, [WireExample(x, y)]);
    ExampleRaw(x, y);
  }
}
