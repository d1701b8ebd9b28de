/**
 Events that verify although nobody signed their digests: inputs for which the comment at
 PlatformParameters (attest/attest.go) fails.
 */
module Forgery {
  import opened Bytes
  import opened Hashing
  import opened Replay
  import opened Merge
  import opened LogFormat
  import opened EventLogs
  import opened AppendExamples
  import opened Quotes
  import opened QuoteBinding
  import opened Attestation

  /** A log of one measurement of PCR 0, chosen freely, and the value it explains. */
  predicate Forged(e: RawEvent, d: bytes) {
    e.index == 0 && e.typ != EV_NO_ACTION && e.digests == [Digest(SHA256, d)] && |d| == Size(SHA256)
  }

  function ForgedValue(hash: HashFunction, d: bytes): (x: bytes)
    ensures |x| == Size(SHA256)
  {
    Chain(hash, SHA256, Initial(SHA256, 0), [d])
  }

  lemma ForgedLogReplays(hash: HashFunction, e: RawEvent, d: bytes, v: bytes)
    requires Forged(e, d)
    ensures var pcrs := [PCR(0, ForgedValue(hash, d), SHA256, false), PCR(0, v, SHA256, false)];
            && Failing(hash, [e], pcrs) == {}
            && VerifiedEvents(hash, [e], pcrs) == [Observed(e, SHA256)]
            && !AnyPanics([e], pcrs)
  {
    var p, q := PCR(0, ForgedValue(hash, d), SHA256, false), PCR(0, v, SHA256, false);
    assert [e][..0] == [] && [p, q][..1] == [p] && [p][..0] == [];
    assert EventsFor([e], 0, SHA256) == [] + [Observed(e, SHA256)] == [Observed(e, SHA256)];
    assert Digests([Observed(e, SHA256)]) == [d];
    assert StartLocality([e], 0) == 0;
    assert Replays(hash, [e], p);
    assert FirstBank(hash, [e], [p], 0) == Some(p);
    assert FirstBank(hash, [e], [p, q], 0) == Some(p);
    assert Banks(hash, [e], [p, q]) == map[0 := SHA256];
    assert Matched([e], map[0 := SHA256]) == [] + [Observed(e, SHA256)] == [Observed(e, SHA256)];
  }

  /**
   The comment at PlatformParameters fails: a TPM that signed v for PCR 0 and nothing else, a
   log of one measurement chosen freely, and a second value for PCR 0 that explains it. The
   quote and the log both verify, and the measurement comes back.
   */
  lemma ForgedEventReturned(lib: Library, ak: AKPublic, quote: Quote, nonce: bytes, log: Log, e: RawEvent, d: bytes, v: bytes)
    requires quote.version == TPM20 && Signed20(lib, ak, quote, nonce) && nonce != []
    requires var att := lib.decodeAttestation(quote.quote).value;
             Bank(att) == SHA256 && att.pcrs == [0] && lib.hash(ak.hash, v) == att.pcrDigest
    requires log.rawEvents == [e] && Forged(e, d)
    ensures var pcrs := [PCR(0, ForgedValue(lib.hash, d), SHA256, false), PCR(0, v, SHA256, false)];
            && Verifies(lib, ak, quote, [PCR(0, v, SHA256, false)], nonce)
            && Tried(lib, ak, [quote], nonce, pcrs, [pcrs]) && Accepted(lib, ak, [quote], nonce, pcrs, [pcrs])
            && Effective(lib.hash, log, pcrs) == Some(log) && !AnyPanics(log.rawEvents, pcrs)
            && VerifiedEvents(lib.hash, log.rawEvents, pcrs) == [Observed(e, SHA256)]
  {
    var att := lib.decodeAttestation(quote.quote).value;
    var x := ForgedValue(lib.hash, d);
    var pcrs := [PCR(0, x, SHA256, false), PCR(0, v, SHA256, false)];
    SignedAlone(lib, ak, att, v);
    SecondValueAccepted(lib, ak, att, x, v);
    ForgedLogReplays(lib.hash, e, d, v);
    assert [quote][..0] == [] && FlaggedBy(lib, [], pcrs) == pcrs;
    assert ArrangedAt(lib, ak, [quote], nonce, pcrs, [pcrs], 0);
    assert VerifiesAt(lib, ak, [quote], nonce, [pcrs], 0);
    assert quote in [quote];
    assert forall p | p in pcrs :: CoveredBy(lib, [quote], p);
  }

  lemma SignedAlone(lib: Library, ak: AKPublic, att: Quotes.Attestation, v: bytes)
    requires Bank(att) == SHA256 && att.pcrs == [0] && lib.hash(ak.hash, v) == att.pcrDigest
    ensures Matches20(lib, ak, att, [PCR(0, v, SHA256, false)])
  {
    assert [0][..0] == [];
    assert Selected([PCR(0, v, SHA256, false)], SHA256, [0]) == v;
  }

  /** A library in which one signature is good, for a quote over PCR 0 holding v. */
  function OneQuote(hash: HashFunction, nonce: bytes, v: bytes): Library {
    Library(hash, (_, _, _, _) => true, _ => Some(Some([])),
            _ => Some(Quotes.Attestation.Attestation(true, nonce, 0x0B, [0], hash(SHA256, v))))
  }

  function ForgedMeasurement(d: bytes): RawEvent {
    RawEvent(1, 0, 1, [], [Digest(SHA256, d)])
  }

  function ForgedLog(d: bytes): bytes {
    LogOf([SpecAlg(ALG_SHA256, 32)], [OneDigest(ALG_SHA256, d)])
  }

  lemma ForgedLogParses(d: bytes)
    requires |d| == 32
    ensures ParseLog(ForgedLog(d)) ==
            Some(Log(LogAlgs([SpecAlg(ALG_SHA256, 32)]), Some([SpecAlg(ALG_SHA256, 32)]), [ForgedMeasurement(d)]))
  {
    OneAlgLog(SpecAlg(ALG_SHA256, 32), d);
  }

  /** Such inputs exist: PCR 0 held zeros, and a measurement of ones, in a log that parses, comes back. */
  lemma ForgeryExample(hash: HashFunction)
    ensures var v, d, nonce := Copies(0, 32), Copies(1, 32), Copies(7, 8);
            var ak, quote, log := AKPublic(RSA(1), SHA256), Quote(TPM20, [], []), ParseLog(ForgedLog(d));
            var pcrs := [PCR(0, ForgedValue(hash, d), SHA256, false), PCR(0, v, SHA256, false)];
            && Accepted(OneQuote(hash, nonce, v), ak, [quote], nonce, pcrs, [pcrs])
            && log.Some? && Effective(hash, log.value, pcrs) == log
            && VerifiedEvents(hash, log.value.rawEvents, pcrs) == [Event(1, 0, 1, [], d)]
  {
    var v, d, nonce := Copies(0, 32), Copies(1, 32), Copies(7, 8);
    ForgedLogParses(d);
    ForgedEventReturned(OneQuote(hash, nonce, v), AKPublic(RSA(1), SHA256), Quote(TPM20, [], []), nonce,
                        ParseLog(ForgedLog(d)).value, ForgedMeasurement(d), d, v);
  }
}
