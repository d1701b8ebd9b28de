/**
 What the event log workarounds repair (attest/eventlog_workarounds.go): the measurements of
 ExitBootServices that some firmware extends into PCR 5 without logging them.
 */
module Workarounds {
  import opened Bytes
  import opened Hashing
  import opened Replay
  import opened Merge
  import opened LogFormat
  import opened EventLogs
  import opened ReplayMeaning
  import opened LogLayout

  /** The three suffixes, in the order in which they are tried. */
  lemma SuffixesAre()
    ensures var invocation := Ascii("Exit Boot Services Invocation");
            var success := Ascii("Exit Boot Services Returned with Success");
            var failure := Ascii("Exit Boot Services Returned with Failure");
            WORKAROUNDS == [[invocation, success], [invocation, failure], [invocation, failure, success]]
  {
  }

  // ----- What a suffix adds -----

  /** An event of type 0 in PCR 5 with this data and its hash in each of the log's banks. */
  predicate Measuring(hash: HashFunction, algs: seq<byte>, data: bytes, sequence: int, e: RawEvent) {
    && e.sequence == sequence && e.index == 5 && e.typ == 0 && e.data == data
    && |e.digests| == |algs|
    && forall j | 0 <= j < |algs| :: e.digests[j] == Digest(CryptoHashOf(algs[j]), hash(CryptoHashOf(algs[j]), data))
  }

  lemma {:induction false} PatchedIs(hash: HashFunction, log: Log, suffix: seq<bytes>)
    requires log.rawEvents != []
    ensures var raw, n := Patched(hash, log, suffix).rawEvents, |log.rawEvents|;
            && |raw| == n + |suffix| && raw[..n] == log.rawEvents
            && forall i | 0 <= i < |suffix| ::
                 Measuring(hash, log.algs, suffix[i], log.rawEvents[n - 1].sequence + 1 + i, raw[n + i])
    ensures Patched(hash, log, suffix).algs == log.algs && Patched(hash, log, suffix).spec == log.spec
    decreases |suffix|
  {
    if suffix == [] {
    } else {
      var n, next := |log.rawEvents|, Injected(hash, log, 5, suffix[0]);
      var raw := Patched(hash, log, suffix).rawEvents;
      PatchedIs(hash, next, suffix[1..]);
      assert raw[..n] == next.rawEvents[..n] == log.rawEvents;
      assert raw[n] == raw[..n + 1][n] == next.rawEvents[n];
      forall i | 0 <= i < |suffix|
        ensures Measuring(hash, log.algs, suffix[i], log.rawEvents[n - 1].sequence + 1 + i, raw[n + i])
      {
        if i > 0 {
          assert suffix[i] == suffix[1..][i - 1] && raw[n + i] == raw[n + 1 + (i - 1)];
        }
      }
    }
  }

  // ----- What a suffix repairs -----

  /** The log has the bank. */
  predicate HasBank(algs: seq<byte>, alg: CryptoHash) {
    exists a | a in algs :: CryptoHashOf(a) == alg
  }

  lemma {:induction false} BankHashed(hash: HashFunction, algs: seq<byte>, data: bytes, alg: CryptoHash)
    ensures BankDigest(HashedBy(hash, algs, data), alg) == if HasBank(algs, alg) then Some(hash(alg, data)) else None
  {
    if algs == [] {
    } else {
      BankHashed(hash, algs[1..], data, alg);
      assert HashedBy(hash, algs, data)[1..] == HashedBy(hash, algs[1..], data);
      assert algs == [algs[0]] + algs[1..];
    }
  }

  function Hashes(hash: HashFunction, alg: CryptoHash, suffix: seq<bytes>): (ds: seq<bytes>)
    ensures |ds| == |suffix|
  {
    seq(|suffix|, i requires 0 <= i < |suffix| => hash(alg, suffix[i]))
  }

  lemma OneInjected(hash: HashFunction, log: Log, data: bytes, p: PCR)
    requires log.rawEvents != [] && p.index == 5 && HasBank(log.algs, p.alg) && Supported(p.alg)
    ensures var raw, after := log.rawEvents, Injected(hash, log, 5, data).rawEvents;
            && (AllDigested(after, p) <==> AllDigested(raw, p) && |p.digest| == Size(p.alg))
            && Digests(EventsFor(after, 5, p.alg)) == Digests(EventsFor(raw, 5, p.alg)) + [hash(p.alg, data)]
  {
    var raw, after := log.rawEvents, Injected(hash, log, 5, data).rawEvents;
    BankHashed(hash, log.algs, data, p.alg);
    assert after[..|raw|] == raw;
    var e := after[|raw|];
    assert Measures(e, 5) && (Digested(e, p) <==> |p.digest| == Size(p.alg));
    assert e in after && forall x :: x in after <==> x in raw || x == e;
  }

  lemma {:induction false} PatchedDigests(hash: HashFunction, log: Log, suffix: seq<bytes>, p: PCR)
    requires log.rawEvents != [] && p.index == 5 && HasBank(log.algs, p.alg) && Supported(p.alg)
    ensures var raw, after := log.rawEvents, Patched(hash, log, suffix).rawEvents;
            && (AllDigested(after, p) <==> AllDigested(raw, p) && (suffix != [] ==> |p.digest| == Size(p.alg)))
            && Digests(EventsFor(after, 5, p.alg)) == Digests(EventsFor(raw, 5, p.alg)) + Hashes(hash, p.alg, suffix)
    decreases |suffix|
  {
    if suffix == [] {
    } else {
      OneInjected(hash, log, suffix[0], p);
      PatchedDigests(hash, Injected(hash, log, 5, suffix[0]), suffix[1..], p);
      assert Hashes(hash, p.alg, suffix) == [hash(p.alg, suffix[0])] + Hashes(hash, p.alg, suffix[1..]);
    }
  }

  lemma {:induction false} OtherStart(raw: seq<RawEvent>, index: int)
    requires index != 0
    ensures StartLocality(raw, index) == 0
  {
    if raw == [] {
    } else {
      OtherStart(raw[..|raw| - 1], index);
    }
  }

  /**
   The PCR's value is that of a register which starts from zeros, is extended by the logged
   measurements of PCR 5 and then by the hashes of the suffix.
   */
  predicate Repaired(hash: HashFunction, log: Log, suffix: seq<bytes>, p: PCR) {
    && HasBank(log.algs, p.alg)
    && (forall e | e in log.rawEvents && e.index == 5 && e.typ != 3 :: FirstSized(e.digests, p.alg, |p.digest|))
    && p.digest == Chain(hash, p.alg, Copies(0, Length(p.alg)),
                         Digests(EventsFor(log.rawEvents, 5, p.alg)) + Hashes(hash, p.alg, suffix))
  }

  lemma ChainSized(hash: HashFunction, alg: CryptoHash, start: bytes, ds: seq<bytes>)
    requires Supported(alg) && ds != []
    ensures |Chain(hash, alg, start, ds)| == Size(alg)
  {
  }

  /** A suffix makes PCR 5 replay in a bank of the log exactly when the register says so, and in no other bank. */
  lemma RepairsIff(hash: HashFunction, log: Log, suffix: seq<bytes>, p: PCR)
    requires log.rawEvents != [] && WellFormed(log) && suffix != [] && p.index == 5
    ensures Replays(hash, Patched(hash, log, suffix).rawEvents, p) <==> Repaired(hash, log, suffix, p)
  {
    var after := Patched(hash, log, suffix).rawEvents;
    PatchedIs(hash, log, suffix);
    var n := |log.rawEvents|;
    var e := after[n];
    assert Measuring(hash, log.algs, suffix[0], log.rawEvents[n - 1].sequence + 1, after[n + 0]);
    if HasBank(log.algs, p.alg) {
      forall x ensures Digested(x, p) <==> FirstSized(x.digests, p.alg, |p.digest|) {
        DigestedIs(x, p);
      }
      PatchedDigests(hash, log, suffix, p);
      OtherStart(after, 5);
      InitialIs(p.alg, 0);
      assert Copies(0, Length(p.alg) - 1) + [0] == Copies(0, Length(p.alg));
      ChainSized(hash, p.alg, Copies(0, Length(p.alg)), Digests(EventsFor(after, 5, p.alg)));
    } else {
      BankHashed(hash, log.algs, suffix[0], p.alg);
      assert e.digests == HashedBy(hash, log.algs, suffix[0]);
      assert e in after && Measures(e, 5) && !Digested(e, p);
    }
  }

  /** One of the PCRs is repaired by the suffix. */
  predicate Repairs(hash: HashFunction, log: Log, pcrs: seq<PCR>, suffix: seq<bytes>) {
    exists p | p in pcrs :: p.index == 5 && Repaired(hash, log, suffix, p)
  }

  lemma WorksIff(hash: HashFunction, log: Log, pcrs: seq<PCR>, suffix: seq<bytes>)
    requires log.rawEvents != [] && WellFormed(log) && suffix in WORKAROUNDS
    ensures Works(hash, log, pcrs, suffix) <==> Repairs(hash, log, pcrs, suffix)
  {
    forall p | p in pcrs && p.index == 5
      ensures Replays(hash, Patched(hash, log, suffix).rawEvents, p) <==> Repaired(hash, log, suffix, p)
    {
      RepairsIff(hash, log, suffix, p);
    }
  }

  lemma {:induction false} FirstOfSuffixes(hash: HashFunction, log: Log, pcrs: seq<PCR>, suffixes: seq<seq<bytes>>, k: nat)
    requires log.rawEvents != [] && k < |suffixes| && Works(hash, log, pcrs, suffixes[k])
    requires forall j | 0 <= j < k :: !Works(hash, log, pcrs, suffixes[j])
    ensures FirstWorking(hash, log, pcrs, suffixes) == Some(Patched(hash, log, suffixes[k]))
  {
    if k == 0 {
    } else {
      FirstOfSuffixes(hash, log, pcrs, suffixes[1..], k - 1);
    }
  }

  /** The first suffix that repairs a PCR 5 makes the log that is verified. */
  lemma FirstRepairWins(hash: HashFunction, log: Log, pcrs: seq<PCR>, k: nat)
    requires WellFormed(log) && Failing(hash, log.rawEvents, pcrs) == {5}
    requires k < 3 && Repairs(hash, log, pcrs, WORKAROUNDS[k])
    requires forall j | 0 <= j < k :: !Repairs(hash, log, pcrs, WORKAROUNDS[j])
    ensures log.rawEvents != [] && Effective(hash, log, pcrs) == Some(Patched(hash, log, WORKAROUNDS[k]))
  {
    FailureHasEvents(hash, log.rawEvents, pcrs);
    forall j | 0 <= j <= k ensures Works(hash, log, pcrs, WORKAROUNDS[j]) <==> Repairs(hash, log, pcrs, WORKAROUNDS[j]) {
      WorksIff(hash, log, pcrs, WORKAROUNDS[j]);
    }
    FirstOfSuffixes(hash, log, pcrs, WORKAROUNDS, k);
  }

  /** Verification succeeds exactly when nothing fails, or only PCR 5 and one of the suffixes repairs it. */
  lemma VerifiesIffRepaired(hash: HashFunction, log: Log, pcrs: seq<PCR>)
    requires WellFormed(log)
    ensures Effective(hash, log, pcrs).Some? <==>
              || Failing(hash, log.rawEvents, pcrs) == {}
              || (Failing(hash, log.rawEvents, pcrs) == {5} && exists s | s in WORKAROUNDS :: Repairs(hash, log, pcrs, s))
  {
    VerifiesIff(hash, log, pcrs);
    if Failing(hash, log.rawEvents, pcrs) == {5} {
      forall s | s in WORKAROUNDS ensures Works(hash, log, pcrs, s) <==> Repairs(hash, log, pcrs, s) {
        WorksIff(hash, log, pcrs, s);
      }
    }
  }

  // ----- A log that is repaired -----

  /** One event of type 8 in PCR 5, in the SHA1 format. */
  function OneEventLog(d: bytes): bytes {
    [5, 0, 0, 0, 8, 0, 0, 0] + d + [0, 0, 0, 0]
  }

  lemma LogOfOne(b: bytes, e: RawEvent)
    requires ParseEvent1(b) == Got(e, []) && e.typ != 3
    ensures ParseLog(b) == Some(Log([4], None, [e]))
  {
    assert ParseTail(None, []) == Some([]);
    assert Numbered([], 1) == [] && [e] + [] == [e];
  }

  lemma OneEventLogParses(d: bytes)
    requires |d| == 20
    ensures ParseLog(OneEventLog(d)) == Some(Log([4], None, [RawEvent(0, 5, 8, [], [Digest(SHA1, d)])]))
  {
    assert OneEventLog(d) + [] + [] == OneEventLog(d);
    SmallEvent(5, 8, d, [], []);
    LogOfOne(OneEventLog(d), RawEvent(0, 5, 8, [], [Digest(SHA1, d)]));
  }

  /** The register after the logged measurement, and after the two that were not logged. */
  function AsLogged(hash: HashFunction, d: bytes): bytes {
    hash(SHA1, Copies(0, 20) + d)
  }

  function AsExtended(hash: HashFunction, d: bytes): bytes {
    hash(SHA1, hash(SHA1, AsLogged(hash, d) + hash(SHA1, Ascii("Exit Boot Services Invocation"))) +
               hash(SHA1, Ascii("Exit Boot Services Returned with Success")))
  }

  lemma LogRepaired(hash: HashFunction, log: Log, d: bytes)
    requires |d| == 20 && log == Log([4], None, [RawEvent(0, 5, 8, [], [Digest(SHA1, d)])]) && WellFormed(log)
    requires AsLogged(hash, d) != AsExtended(hash, d)
    ensures var pcrs := [PCR(5, AsExtended(hash, d), SHA1, false)];
            && Failing(hash, log.rawEvents, pcrs) == {5}
            && Effective(hash, log, pcrs) == Some(Patched(hash, log, WORKAROUNDS[0]))
  {
    var e, p := log.rawEvents[0], PCR(5, AsExtended(hash, d), SHA1, false);
    FromZeros(hash, e, p, d);
    forall i ensures i in Failing(hash, [e], [p]) <==> i == 5 {
      FailingIs(hash, [e], [p], i);
    }
    ExampleRepaired(hash, log, d);
    FirstRepairWins(hash, log, [p], 0);
  }

  /** The parsed log fails, unless the two values coincide, and verifies with the first workaround. */
  lemma FirstWorkaroundRepairs(hash: HashFunction, d: bytes)
    requires |d| == 20 && AsLogged(hash, d) != AsExtended(hash, d)
    ensures ParseLog(OneEventLog(d)).Some?
    ensures var log, pcrs := ParseLog(OneEventLog(d)).value, [PCR(5, AsExtended(hash, d), SHA1, false)];
            && Failing(hash, log.rawEvents, pcrs) == {5}
            && Effective(hash, log, pcrs) == Some(Patched(hash, log, WORKAROUNDS[0]))
  {
    OneEventLogParses(d);
    ParsedWellFormed(OneEventLog(d));
    LogRepaired(hash, ParseLog(OneEventLog(d)).value, d);
  }

  lemma ExampleRepaired(hash: HashFunction, log: Log, d: bytes)
    requires |d| == 20 && log == Log([4], None, [RawEvent(0, 5, 8, [], [Digest(SHA1, d)])])
    ensures Repairs(hash, log, [PCR(5, AsExtended(hash, d), SHA1, false)], WORKAROUNDS[0])
  {
    var p, e := PCR(5, AsExtended(hash, d), SHA1, false), log.rawEvents[0];
    var x := hash(SHA1, Ascii("Exit Boot Services Invocation"));
    var y := hash(SHA1, Ascii("Exit Boot Services Returned with Success"));
    EventsForAre([e], 5, SHA1, [0]);
    assert FirstAt(e.digests, SHA1, 0);
    assert Digests(EventsFor([e], 5, SHA1)) == [d] && Hashes(hash, SHA1, WORKAROUNDS[0]) == [x, y];
    ExtendsIsChain(hash, SHA1, Copies(0, 20), [d, x, y],
                   [Copies(0, 20), AsLogged(hash, d), hash(SHA1, AsLogged(hash, d) + x), AsExtended(hash, d)]);
    assert [d] + [x, y] == [d, x, y];
    assert 4 as byte in log.algs && CryptoHashOf(4) == SHA1;
    assert p in [p];
  }

  function Next(b: bytes): byte {
    var x: int := if b == [] then 0 else b[0];
    (x + 1) % 256
  }

  /** A hash function that counts: each extension adds one. */
  const COUNTING: HashFunction := (h: CryptoHash, b: bytes) => if Supported(h) then seq(Size(h), i => Next(b)) else []

  /** There are such logs: the register of the first value was extended once, that of the second three times. */
  lemma WorkaroundExample(d: bytes)
    requires |d| == 20
    ensures AsLogged(COUNTING, d) == Copies(1, 20) && AsExtended(COUNTING, d) == Copies(3, 20)
  {
    assert (Copies(0, 20) + d)[0] == 0;
    assert AsLogged(COUNTING, d) == seq(20, i => 1);
  }
}
