/**
 Replay of a measurement log against one PCR (attest/eventlog.go: extend,
 replayPCR), and why a successful replay pins the log down.
 */
module Replay {
  import opened Bytes
  import opened Hashing

  const EV_NO_ACTION: uint32 := 3

  datatype Digest = Digest(hash: LogHash, data: bytes)

  datatype RawEvent = RawEvent(sequence: int, index: int, typ: uint32, data: bytes, digests: seq<Digest>)

  datatype Event = Event(sequence: int, index: int, typ: uint32, data: bytes, digest: bytes)

  /** Event.digestEquals: the hash is chosen by the length of the digest. */
  predicate DigestEquals(hash: HashFunction, e: Event, b: bytes) {
    || (|e.digest| == Size(SHA256) && hash(SHA256, b) == e.digest)
    || (|e.digest| == Size(SHA1) && hash(SHA1, b) == e.digest)
  }

  /** The events of one PCR, in order. */
  function EventsAt(events: seq<Event>, index: int): seq<Event> {
    if events == [] then []
    else
      var front, e := events[..|events| - 1], events[|events| - 1];
      if e.index == index then EventsAt(front, index) + [e] else EventsAt(front, index)
  }

  lemma EventsAtMore(events: seq<Event>, e: Event, index: int)
    ensures EventsAt(events + [e], index) ==
            if e.index == index then EventsAt(events, index) + [e] else EventsAt(events, index)
  {
  }

  datatype PCR = PCR(index: int, digest: bytes, alg: CryptoHash, quoteVerified: bool)

  // ----- What a replay means -----

  /** Events that extend the PCR, as opposed to informing the reader of the log. */
  predicate Measures(e: RawEvent, index: int) {
    e.index == index && e.typ != EV_NO_ACTION
  }

  predicate SetsLocality(e: RawEvent, index: int) {
    index == 0 && e.index == 0 && e.typ == EV_NO_ACTION && |e.data| == 17 && Ascii("StartupLocality") <= e.data
  }

  /** The first digest of an event in the given bank. */
  function BankDigest(ds: seq<Digest>, alg: CryptoHash): Option<bytes> {
    if ds == [] then None
    else if ds[0].hash == alg then Some(ds[0].data)
    else BankDigest(ds[1..], alg)
  }

  /** The locality in force when the PCR is extended for the first time. */
  function StartLocality(raw: seq<RawEvent>, index: int): byte {
    if raw == [] then 0
    else
      var front, e := raw[..|raw| - 1], raw[|raw| - 1];
      if SetsLocality(e, index) && Unmeasured(front, index)
      then e.data[16] else StartLocality(front, index)
  }

  /** Value of a PCR before its first extension. */
  function Initial(alg: CryptoHash, locality: byte): (b: bytes)
    requires Supported(alg)
    ensures |b| == Size(alg)
  {
    seq(Size(alg) - 1, i => 0) + [locality]
  }

  /** The PCR value after extending start with the given digests, in order. */
  function Chain(hash: HashFunction, alg: CryptoHash, start: bytes, ds: seq<bytes>): bytes {
    if ds == [] then start
    else hash(alg, Chain(hash, alg, start, ds[..|ds| - 1]) + ds[|ds| - 1])
  }

  function Observed(e: RawEvent, alg: CryptoHash): Event {
    Event(e.sequence, e.index, e.typ, e.data, BankDigest(e.digests, alg).GetOr([]))
  }

  /** The log's measurements of one PCR in one bank, in log order. */
  function EventsFor(raw: seq<RawEvent>, index: int, alg: CryptoHash): seq<Event> {
    if raw == [] then []
    else
      var front, e := raw[..|raw| - 1], raw[|raw| - 1];
      EventsFor(front, index, alg) + if Measures(e, index) then [Observed(e, alg)] else []
  }

  function Digests(events: seq<Event>): (ds: seq<bytes>)
    ensures |ds| == |events|
  {
    seq(|events|, i requires 0 <= i < |events| => events[i].digest)
  }

  /** The event's digest of the PCR's bank has the PCR's length. */
  predicate Digested(e: RawEvent, pcr: PCR) {
    BankDigest(e.digests, pcr.alg).Some? && |BankDigest(e.digests, pcr.alg).value| == |pcr.digest|
  }

  predicate AllDigested(raw: seq<RawEvent>, pcr: PCR) {
    forall e | e in raw && Measures(e, pcr.index) :: Digested(e, pcr)
  }

  /** The log explains the PCR value. */
  predicate Replays(hash: HashFunction, raw: seq<RawEvent>, pcr: PCR) {
    var events := EventsFor(raw, pcr.index, pcr.alg);
    && AllDigested(raw, pcr)
    && (events != [] ==>
          && Supported(pcr.alg)
          && pcr.digest == Chain(hash, pcr.alg, Initial(pcr.alg, StartLocality(raw, pcr.index)), Digests(events)))
  }

  predicate Unmeasured(raw: seq<RawEvent>, index: int) {
    forall e | e in raw :: !Measures(e, index)
  }

  /**
   crypto.Hash(0) panics when asked to hash: the first event that measures a PCR without
   bank has a digest without bank, of the PCR's length.
   */
  predicate Panics(raw: seq<RawEvent>, pcr: PCR) {
    pcr.alg == NoHash && exists i | 0 <= i < |raw| :: FirstDigested(raw, pcr, i)
  }

  predicate FirstDigested(raw: seq<RawEvent>, pcr: PCR, i: nat)
    requires i < |raw|
  {
    Unmeasured(raw[..i], pcr.index) && Measures(raw[i], pcr.index) && Digested(raw[i], pcr)
  }

  // ----- The replay loops -----

  datatype Extended = NotExtended | Extended(pcr: bytes, digest: bytes) | ExtendPanicked

  method Extend(hash: HashFunction, pcr: PCR, replay: bytes, e: RawEvent, locality: byte) returns (r: Extended)
    ensures r == NotExtended <==> !Digested(e, pcr)
    ensures r == ExtendPanicked <==> Digested(e, pcr) && pcr.alg == NoHash
    ensures r.Extended? ==> Supported(pcr.alg)
    ensures r.Extended? ==> BankDigest(e.digests, pcr.alg) == Some(r.digest)
    ensures r.Extended? ==>
              r.pcr == hash(pcr.alg, (if replay != [] then replay else Initial(pcr.alg, locality)) + r.digest)
  {
    var i := 0;
    while i < |e.digests|
      invariant 0 <= i <= |e.digests|
      invariant BankDigest(e.digests, pcr.alg) == BankDigest(e.digests[i..], pcr.alg)
    {
      var digest := e.digests[i];
      if digest.hash == pcr.alg {
        if |digest.data| != |pcr.digest| {
          return NotExtended;
        }
        if pcr.alg == NoHash {
          return ExtendPanicked;
        }
        var start := replay;
        if |replay| == 0 {
          start := Initial(pcr.alg, locality);
        }
        return Extended(hash(pcr.alg, start + digest.data), digest.data);
      }
      i := i + 1;
    }
    r := NotExtended;
  }

  /** The state of the replay loop after the events of a prefix of the log. */
  predicate ReplayedTo(hash: HashFunction, raw: seq<RawEvent>, pcr: PCR,
                       replay: bytes, outEvents: seq<Event>, locality: byte) {
    && AllDigested(raw, pcr)
    && outEvents == EventsFor(raw, pcr.index, pcr.alg)
    && (outEvents == [] ==> replay == [] && locality == StartLocality(raw, pcr.index))
    && (outEvents != [] ==>
          && Supported(pcr.alg)
          && replay != []
          && replay == Chain(hash, pcr.alg, Initial(pcr.alg, StartLocality(raw, pcr.index)), Digests(outEvents)))
  }

  lemma ReplaySkips(hash: HashFunction, raw: seq<RawEvent>, e: RawEvent, pcr: PCR,
                    replay: bytes, outEvents: seq<Event>, locality: byte)
    requires ReplayedTo(hash, raw, pcr, replay, outEvents, locality)
    requires !Measures(e, pcr.index)
    ensures ReplayedTo(hash, raw + [e], pcr, replay, outEvents,
                       if SetsLocality(e, pcr.index) then e.data[16] else locality)
  {
    assert (raw + [e])[..|raw|] == raw;
    NothingMeasured(raw, pcr.index, pcr.alg);
  }

  lemma ReplayExtends(hash: HashFunction, raw: seq<RawEvent>, e: RawEvent, pcr: PCR,
                      replay: bytes, outEvents: seq<Event>, locality: byte)
    requires ReplayedTo(hash, raw, pcr, replay, outEvents, locality)
    requires Measures(e, pcr.index) && Supported(pcr.alg) && Digested(e, pcr)
    ensures var start := if replay != [] then replay else Initial(pcr.alg, locality);
            ReplayedTo(hash, raw + [e], pcr, hash(pcr.alg, start + BankDigest(e.digests, pcr.alg).value),
                       outEvents + [Observed(e, pcr.alg)], locality)
  {
    assert (raw + [e])[..|raw|] == raw;
    var after := outEvents + [Observed(e, pcr.alg)];
    assert Digests(after)[..|outEvents|] == Digests(outEvents);
  }

  /** Only the first measurement decides about a panic. */
  lemma PanicsAt(raw: seq<RawEvent>, pcr: PCR, i: nat)
    requires i < |raw| && Unmeasured(raw[..i], pcr.index) && Measures(raw[i], pcr.index)
    ensures Panics(raw, pcr) <==> pcr.alg == NoHash && Digested(raw[i], pcr)
  {
    assert forall k | 0 <= k < i :: raw[k] in raw[..i];
    assert forall k | i < k < |raw| :: raw[i] in raw[..k];
    assert Digested(raw[i], pcr) ==> FirstDigested(raw, pcr, i);
  }

  lemma UnmeasuredNeverPanics(raw: seq<RawEvent>, pcr: PCR)
    requires Unmeasured(raw, pcr.index)
    ensures !Panics(raw, pcr)
  {
  }

  /** A log that makes the replay panic does not explain the PCR. */
  lemma PanicsExplainsNothing(hash: HashFunction, raw: seq<RawEvent>, pcr: PCR)
    requires Panics(raw, pcr)
    ensures !Replays(hash, raw, pcr)
  {
    NothingMeasured(raw, pcr.index, pcr.alg);
  }

  datatype PCRReplay = Explained(events: seq<Event>) | Unexplained | ReplayPanicked

  method ReplayPCR(hash: HashFunction, rawEvents: seq<RawEvent>, pcr: PCR) returns (r: PCRReplay)
    ensures r == ReplayPanicked <==> Panics(rawEvents, pcr)
    ensures r.Explained? <==> Replays(hash, rawEvents, pcr)
    ensures r.Explained? ==> r.events == EventsFor(rawEvents, pcr.index, pcr.alg)
  {
    var replay, outEvents, locality := [], [], 0;
    var i := 0;
    while i < |rawEvents|
      invariant 0 <= i <= |rawEvents|
      invariant ReplayedTo(hash, rawEvents[..i], pcr, replay, outEvents, locality)
    {
      var e := rawEvents[i];
      assert rawEvents[..i + 1] == rawEvents[..i] + [e];
      ghost var before, at := rawEvents[..i], locality;
      i := i + 1;
      if e.index != pcr.index {
        ReplaySkips(hash, before, e, pcr, replay, outEvents, at);
        continue;
      }
      if e.typ == EV_NO_ACTION {
        if pcr.index == 0 && |e.data| == 17 && Ascii("StartupLocality") <= e.data {
          locality := e.data[|e.data| - 1];
        }
        ReplaySkips(hash, before, e, pcr, replay, outEvents, at);
        continue;
      }
      var x := Extend(hash, pcr, replay, e, locality);
      if !x.Extended? {
        StopsAt(hash, rawEvents, i - 1, pcr, replay, outEvents, locality);
        return if x == ExtendPanicked then ReplayPanicked else Unexplained;
      }
      ReplayExtends(hash, before, e, pcr, replay, outEvents, locality);
      replay := x.pcr;
      outEvents := outEvents + [Event(e.sequence, pcr.index, e.typ, e.data, x.digest)];
    }
    assert rawEvents[..i] == rawEvents;
    EndsWithoutPanic(hash, rawEvents, pcr, replay, outEvents, locality);
    if |outEvents| > 0 && replay != pcr.digest {
      return Unexplained;
    }
    r := Explained(outEvents);
  }

  lemma StopsAt(hash: HashFunction, raw: seq<RawEvent>, i: nat, pcr: PCR,
                replay: bytes, outEvents: seq<Event>, locality: byte)
    requires i < |raw| && ReplayedTo(hash, raw[..i], pcr, replay, outEvents, locality)
    requires Measures(raw[i], pcr.index) && (pcr.alg == NoHash || !Digested(raw[i], pcr))
    ensures !Replays(hash, raw, pcr)
    ensures Panics(raw, pcr) <==> pcr.alg == NoHash && Digested(raw[i], pcr)
  {
    assert raw[i] in raw;
    NothingMeasured(raw, pcr.index, pcr.alg);
    if pcr.alg == NoHash {
      NothingMeasured(raw[..i], pcr.index, pcr.alg);
      PanicsAt(raw, pcr, i);
    }
  }

  lemma EndsWithoutPanic(hash: HashFunction, raw: seq<RawEvent>, pcr: PCR,
                         replay: bytes, outEvents: seq<Event>, locality: byte)
    requires ReplayedTo(hash, raw, pcr, replay, outEvents, locality)
    ensures !Panics(raw, pcr)
  {
    NothingMeasured(raw, pcr.index, pcr.alg);
    if outEvents == [] {
      UnmeasuredNeverPanics(raw, pcr);
    }
  }

  lemma TakeOneMore<T>(s: seq<T>, i: nat)
    requires i < |s|
    ensures s[..i + 1][..i] == s[..i] && s[..i + 1][i] == s[i] && s[..i + 1] == s[..i] + [s[i]]
  {
  }

  lemma NothingMeasured(raw: seq<RawEvent>, index: int, alg: CryptoHash)
    ensures EventsFor(raw, index, alg) == [] <==> Unmeasured(raw, index)
  {
  }

  /** A PCR that nothing measures replays whatever its value, so events only ever vouch for the PCRs they name. */
  lemma UnmeasuredReplays(hash: HashFunction, raw: seq<RawEvent>, pcr: PCR)
    requires Unmeasured(raw, pcr.index)
    ensures Replays(hash, raw, pcr)
  {
    NothingMeasured(raw, pcr.index, pcr.alg);
  }

  // ----- A replay binds the log -----

  /** An explicit failure of the hash function: two inputs with one image, or an initial PCR value reached. */
  datatype Break = Collision(x: bytes, y: bytes) | Preimage(x: bytes, locality: byte)

  predicate Breaks(hash: HashFunction, alg: CryptoHash, b: Break)
    requires Supported(alg)
  {
    match b
    case Collision(x, y) => x != y && |x| == |y| == 2 * Size(alg) && hash(alg, x) == hash(alg, y)
    case Preimage(x, locality) => |x| == 2 * Size(alg) && hash(alg, x) == Initial(alg, locality)
  }

  predicate Sized(alg: CryptoHash, ds: seq<bytes>)
    requires Supported(alg)
  {
    forall d | d in ds :: |d| == Size(alg)
  }

  lemma ChainLength(hash: HashFunction, alg: CryptoHash, locality: byte, ds: seq<bytes>)
    requires Supported(alg)
    ensures |Chain(hash, alg, Initial(alg, locality), ds)| == Size(alg)
  {
  }

  lemma InitialInjective(alg: CryptoHash, l1: byte, l2: byte)
    requires Supported(alg)
    ensures Initial(alg, l1) == Initial(alg, l2) <==> l1 == l2
  {
    assert Initial(alg, l1)[Size(alg) - 1] == l1 && Initial(alg, l2)[Size(alg) - 1] == l2;
  }

  lemma SameSplit(a: bytes, b: bytes, c: bytes, d: bytes)
    requires |a| == |c| && a + b == c + d
    ensures a == c && b == d
  {
    assert a == (a + b)[..|a|] && b == (a + b)[|a|..];
    assert c == (c + d)[..|c|] && d == (c + d)[|c|..];
  }

  /** The last input hashed by a non-empty chain. */
  function LastInput(hash: HashFunction, alg: CryptoHash, locality: byte, ds: seq<bytes>): (x: bytes)
    requires Supported(alg) && Sized(alg, ds) && ds != []
    ensures |x| == 2 * Size(alg)
    ensures Chain(hash, alg, Initial(alg, locality), ds) == hash(alg, x)
  {
    ChainLength(hash, alg, locality, ds[..|ds| - 1]);
    Chain(hash, alg, Initial(alg, locality), ds[..|ds| - 1]) + ds[|ds| - 1]
  }

  lemma SameLastInput(hash: HashFunction, alg: CryptoHash, l1: byte, d1: seq<bytes>, l2: byte, d2: seq<bytes>)
    requires Supported(alg) && Sized(alg, d1) && Sized(alg, d2) && d1 != [] && d2 != []
    requires LastInput(hash, alg, l1, d1) == LastInput(hash, alg, l2, d2)
    ensures Chain(hash, alg, Initial(alg, l1), d1[..|d1| - 1]) == Chain(hash, alg, Initial(alg, l2), d2[..|d2| - 1])
    ensures d1[|d1| - 1] == d2[|d2| - 1]
  {
    var c1, c2 := Chain(hash, alg, Initial(alg, l1), d1[..|d1| - 1]), Chain(hash, alg, Initial(alg, l2), d2[..|d2| - 1]);
    ChainLength(hash, alg, l1, d1[..|d1| - 1]);
    ChainLength(hash, alg, l2, d2[..|d2| - 1]);
    SameSplit(c1, d1[|d1| - 1], c2, d2[|d2| - 1]);
  }

  /**
   From two different histories of one PCR value, extracts where the hash function
   gave way; None only when the histories are the same.
   */
  function FindBreak(hash: HashFunction, alg: CryptoHash, l1: byte, d1: seq<bytes>, l2: byte, d2: seq<bytes>):
    (b: Option<Break>)
    requires Supported(alg) && Sized(alg, d1) && Sized(alg, d2)
    requires Chain(hash, alg, Initial(alg, l1), d1) == Chain(hash, alg, Initial(alg, l2), d2)
    ensures b == None <==> (d1 == d2 && l1 == l2)
    ensures b.Some? ==> Breaks(hash, alg, b.value)
    decreases |d1|
  {
    if d1 == [] && d2 == [] then
      InitialInjective(alg, l1, l2);
      None
    else if d2 == [] then Some(Preimage(LastInput(hash, alg, l1, d1), l2))
    else if d1 == [] then Some(Preimage(LastInput(hash, alg, l2, d2), l1))
    else
      var x1, x2 := LastInput(hash, alg, l1, d1), LastInput(hash, alg, l2, d2);
      if x1 != x2 then Some(Collision(x1, x2))
      else
        SameLastInput(hash, alg, l1, d1, l2, d2);
        assert d1 == d1[..|d1| - 1] + [d1[|d1| - 1]] && d2 == d2[..|d2| - 1] + [d2[|d2| - 1]];
        FindBreak(hash, alg, l1, d1[..|d1| - 1], l2, d2[..|d2| - 1])
  }

  lemma EventsDigested(raw: seq<RawEvent>, pcr: PCR)
    requires AllDigested(raw, pcr)
    ensures forall d | d in Digests(EventsFor(raw, pcr.index, pcr.alg)) :: |d| == |pcr.digest|
  {
    if raw == [] {
    } else {
      var front := raw[..|raw| - 1];
      assert forall e | e in front :: e in raw;
      EventsDigested(front, pcr);
      var rest := EventsFor(front, pcr.index, pcr.alg);
      forall d | d in Digests(EventsFor(raw, pcr.index, pcr.alg)) ensures |d| == |pcr.digest| {
        var i :| 0 <= i < |Digests(EventsFor(raw, pcr.index, pcr.alg))| && Digests(EventsFor(raw, pcr.index, pcr.alg))[i] == d;
        if i < |rest| {
          assert Digests(rest)[i] == d;
        } else {
          assert raw[|raw| - 1] in raw;
        }
      }
    }
  }

  /**
   Two logs that both explain one PCR value, each by at least one measurement, agree on
   its digests and on its starting locality, unless the hash function is broken by b.
   */
  lemma ReplayBindsLog(hash: HashFunction, raw1: seq<RawEvent>, raw2: seq<RawEvent>, pcr: PCR)
    returns (b: Option<Break>)
    requires Replays(hash, raw1, pcr) && EventsFor(raw1, pcr.index, pcr.alg) != []
    requires Replays(hash, raw2, pcr) && EventsFor(raw2, pcr.index, pcr.alg) != []
    ensures Supported(pcr.alg) && |pcr.digest| == Size(pcr.alg)
    ensures b == None <==>
              && Digests(EventsFor(raw1, pcr.index, pcr.alg)) == Digests(EventsFor(raw2, pcr.index, pcr.alg))
              && StartLocality(raw1, pcr.index) == StartLocality(raw2, pcr.index)
    ensures b.Some? ==> Breaks(hash, pcr.alg, b.value)
  {
    var d1, d2 := Digests(EventsFor(raw1, pcr.index, pcr.alg)), Digests(EventsFor(raw2, pcr.index, pcr.alg));
    var l1, l2 := StartLocality(raw1, pcr.index), StartLocality(raw2, pcr.index);
    ChainLength(hash, pcr.alg, l1, d1);
    EventsDigested(raw1, pcr);
    EventsDigested(raw2, pcr);
    b := FindBreak(hash, pcr.alg, l1, d1, l2, d2);
  }

  /** One digest of an algorithm that HashAlg cannot hash with, such as SHA384, met by a PCR without bank. */
  lemma HashlessDigestPanics(e: RawEvent, pcr: PCR)
    requires Measures(e, pcr.index) && pcr.alg == NoHash && e.digests == [Digest(NoHash, pcr.digest)]
    ensures Panics([e], pcr)
  {
    PanicsAt([e], pcr, 0);
  }
}
