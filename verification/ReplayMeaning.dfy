/**
 What replaying a log means (attest/eventlog.go: extend, replayPCR, replayEvents), told by
 the positions of events in the log and the values a TPM's register passes through.
 */
module ReplayMeaning {
  import opened Bytes
  import opened Hashing
  import opened Replay
  import opened Merge
  import opened Sorting

  // ----- Positions -----

  /** The positions of the log's measurements of these PCRs: events of any type but 3. */
  function Measured(raw: seq<RawEvent>, indices: set<int>): set<nat> {
    set k: nat | k < |raw| && raw[k].index in indices && raw[k].typ != 3
  }

  /** These positions in order. */
  predicate MeasuredAt(raw: seq<RawEvent>, indices: set<int>, ks: seq<nat>)
    ensures MeasuredAt(raw, indices, ks) ==> forall i | 0 <= i < |ks| :: ks[i] < |raw|
  {
    Enumerates(ks, Measured(raw, indices))
  }

  predicate FirstAt(ds: seq<Digest>, alg: CryptoHash, j: nat)
    requires j < |ds|
  {
    ds[j].hash == alg && forall i | 0 <= i < j :: ds[i].hash != alg
  }

  /** The data of the first digest of this bank. */
  predicate FirstOf(ds: seq<Digest>, alg: CryptoHash, d: bytes) {
    exists j | 0 <= j < |ds| :: FirstAt(ds, alg, j) && ds[j].data == d
  }

  /** The first digest of this bank has n bytes. */
  predicate FirstSized(ds: seq<Digest>, alg: CryptoHash, n: nat) {
    exists j | 0 <= j < |ds| :: FirstAt(ds, alg, j) && |ds[j].data| == n
  }

  lemma FirstAtMore(d: Digest, ds: seq<Digest>, alg: CryptoHash, j: nat)
    requires j < |ds|
    ensures FirstAt([d] + ds, alg, j + 1) <==> d.hash != alg && FirstAt(ds, alg, j)
  {
    var more := [d] + ds;
    assert forall i | 0 <= i < |ds| :: more[i + 1] == ds[i];
    assert forall i | 0 < i < |more| :: more[i] == ds[i - 1];
    assert more[0] == d && more[j + 1] == ds[j];
    if FirstAt(more, alg, j + 1) {
      assert more[0].hash != alg;
      forall i | 0 <= i < j ensures ds[i].hash != alg {
        assert more[i + 1].hash != alg;
      }
    }
  }

  lemma {:induction false} BankDigestFirst(ds: seq<Digest>, alg: CryptoHash, j: nat)
    requires j < |ds| && FirstAt(ds, alg, j)
    ensures BankDigest(ds, alg) == Some(ds[j].data)
  {
    if j == 0 {
    } else {
      assert ds == [ds[0]] + ds[1..];
      FirstAtMore(ds[0], ds[1..], alg, j - 1);
      BankDigestFirst(ds[1..], alg, j - 1);
    }
  }

  lemma {:induction false} BankDigestFound(ds: seq<Digest>, alg: CryptoHash)
    requires BankDigest(ds, alg).Some?
    ensures FirstOf(ds, alg, BankDigest(ds, alg).value)
  {
    if ds[0].hash == alg {
      assert FirstAt(ds, alg, 0);
    } else {
      var more := ds[1..];
      BankDigestFound(more, alg);
      var j :| 0 <= j < |more| && FirstAt(more, alg, j) && more[j].data == BankDigest(ds, alg).value;
      assert ds == [ds[0]] + more;
      FirstAtMore(ds[0], more, alg, j);
    }
  }

  lemma {:induction false} FirstOfIs(ds: seq<Digest>, alg: CryptoHash, d: bytes)
    ensures BankDigest(ds, alg) == Some(d) <==> FirstOf(ds, alg, d)
  {
    if j :| 0 <= j < |ds| && FirstAt(ds, alg, j) && ds[j].data == d {
      BankDigestFirst(ds, alg, j);
    }
    if BankDigest(ds, alg) == Some(d) {
      BankDigestFound(ds, alg);
    }
  }

  lemma DigestedIs(e: RawEvent, p: PCR)
    ensures Digested(e, p) <==> FirstSized(e.digests, p.alg, |p.digest|)
  {
    if Digested(e, p) {
      BankDigestFound(e.digests, p.alg);
    }
    if j :| 0 <= j < |e.digests| && FirstAt(e.digests, p.alg, j) && |e.digests[j].data| == |p.digest| {
      BankDigestFirst(e.digests, p.alg, j);
    }
  }

  lemma PositionsBefore(raw: seq<RawEvent>, indices: set<int>, ks: seq<nat>)
    requires raw != [] && MeasuredAt(raw, indices, ks)
    ensures var n := |raw| - 1;
            if raw[n].index in indices && raw[n].typ != 3
            then ks != [] && ks[|ks| - 1] == n && MeasuredAt(raw[..n], indices, ks[..|ks| - 1])
            else MeasuredAt(raw[..n], indices, ks)
  {
    var n := |raw| - 1;
    assert Measured(raw[..n], indices) == Measured(raw, indices) - {n};
    if n in Measured(raw, indices) {
      EnumeratesLast(ks, Measured(raw, indices), n);
    }
  }

  /** The events of a replay are the measurements at these positions, with the digest of the bank. */
  lemma {:induction false} EventsForAre(raw: seq<RawEvent>, index: int, alg: CryptoHash, ks: seq<nat>)
    requires MeasuredAt(raw, {index}, ks)
    ensures |EventsFor(raw, index, alg)| == |ks|
    ensures forall i | 0 <= i < |ks| :: var e := raw[ks[i]];
              EventsFor(raw, index, alg)[i] ==
              Event(e.sequence, index, e.typ, e.data, BankDigest(e.digests, alg).GetOr([]))
  {
    if raw == [] {
    } else {
      PositionsBefore(raw, {index}, ks);
      var n := |raw| - 1;
      if raw[n].index == index && raw[n].typ != 3 {
        EventsForAre(raw[..n], index, alg, ks[..|ks| - 1]);
      } else {
        EventsForAre(raw[..n], index, alg, ks);
      }
    }
  }

  // ----- Starting values -----

  /** A StartupLocality event of 17 bytes, of which the last is the locality. */
  predicate Announces(e: RawEvent) {
    e.index == 0 && e.typ == 3 && |e.data| == 17 && e.data[..15] == Ascii("StartupLocality")
  }

  predicate MeasuredBefore(raw: seq<RawEvent>, index: int, m: nat)
    requires m <= |raw|
  {
    exists k | 0 <= k < m :: raw[k].index == index && raw[k].typ != 3
  }

  predicate AnnouncesAt(raw: seq<RawEvent>, m: nat)
    requires m < |raw|
  {
    Announces(raw[m]) && !MeasuredBefore(raw, 0, m)
  }

  /** The last locality announced before PCR 0 is first measured; zero without one, and for other PCRs. */
  predicate StartsFrom(raw: seq<RawEvent>, index: int, l: byte) {
    if index == 0 && exists m | 0 <= m < |raw| :: AnnouncesAt(raw, m)
    then exists m | 0 <= m < |raw| ::
           AnnouncesAt(raw, m) && raw[m].data[16] == l && forall j | m < j < |raw| :: !AnnouncesAt(raw, j)
    else l == 0
  }

  lemma SetsIs(e: RawEvent, index: int)
    ensures SetsLocality(e, index) <==> index == 0 && Announces(e)
  {
  }

  lemma MeasuredBeforeIs(raw: seq<RawEvent>, index: int, m: nat)
    requires m <= |raw|
    ensures MeasuredBefore(raw, index, m) <==> !Unmeasured(raw[..m], index)
  {
    if MeasuredBefore(raw, index, m) {
      var k :| 0 <= k < m && raw[k].index == index && raw[k].typ != 3;
      assert raw[..m][k] in raw[..m];
    }
  }

  lemma AnnouncesBefore(raw: seq<RawEvent>, m: nat)
    requires m < |raw| - 1
    ensures AnnouncesAt(raw, m) <==> AnnouncesAt(raw[..|raw| - 1], m)
  {
  }

  lemma AnnouncesLast(raw: seq<RawEvent>)
    requires raw != []
    ensures AnnouncesAt(raw, |raw| - 1) <==> SetsLocality(raw[|raw| - 1], 0) && Unmeasured(raw[..|raw| - 1], 0)
  {
    SetsIs(raw[|raw| - 1], 0);
    MeasuredBeforeIs(raw, 0, |raw| - 1);
  }

  /** The last event announces a locality, or the one announced before stays. */
  lemma StartsFromMore(raw: seq<RawEvent>, l: byte)
    requires raw != []
    ensures var n := |raw| - 1;
            if AnnouncesAt(raw, n) then StartsFrom(raw, 0, raw[n].data[16])
            else StartsFrom(raw[..n], 0, l) ==> StartsFrom(raw, 0, l)
  {
    var n := |raw| - 1;
    forall m | 0 <= m < n ensures AnnouncesAt(raw, m) <==> AnnouncesAt(raw[..n], m) {
      AnnouncesBefore(raw, m);
    }
    if !AnnouncesAt(raw, n) {
      if m :| 0 <= m < n && AnnouncesAt(raw[..n], m) {
        assert AnnouncesAt(raw, m);
      }
    }
  }

  lemma {:induction false} StartsFromLocality(raw: seq<RawEvent>, index: int)
    ensures StartsFrom(raw, index, StartLocality(raw, index))
  {
    if raw == [] {
    } else {
      var n := |raw| - 1;
      StartsFromLocality(raw[..n], index);
      SetsIs(raw[n], index);
      AnnouncesLast(raw);
      StartsFromMore(raw, StartLocality(raw[..n], 0));
    }
  }

  // ----- The register -----

  /** The length of a PCR of the bank. */
  function Length(alg: CryptoHash): nat {
    if alg == SHA1 then 20 else 32
  }

  /** The register's value before and after each extension. */
  predicate Extends(hash: HashFunction, alg: CryptoHash, start: bytes, ds: seq<bytes>, vs: seq<bytes>) {
    |vs| == |ds| + 1 && vs[0] == start && forall i | 0 <= i < |ds| :: vs[i + 1] == hash(alg, vs[i] + ds[i])
  }

  lemma {:induction false} ExtendsIsChain(hash: HashFunction, alg: CryptoHash, start: bytes, ds: seq<bytes>, vs: seq<bytes>)
    requires Extends(hash, alg, start, ds, vs)
    ensures vs[|ds|] == Chain(hash, alg, start, ds)
  {
    if ds == [] {
    } else {
      ExtendsIsChain(hash, alg, start, ds[..|ds| - 1], vs[..|ds|]);
    }
  }

  function {:induction false} Passed(hash: HashFunction, alg: CryptoHash, start: bytes, ds: seq<bytes>): (vs: seq<bytes>)
    ensures Extends(hash, alg, start, ds, vs)
  {
    if ds == [] then [start]
    else
      var front := Passed(hash, alg, start, ds[..|ds| - 1]);
      front + [hash(alg, front[|ds| - 1] + ds[|ds| - 1])]
  }

  /**
   The register starts from zeros and the locality, is extended by the first digest of its
   bank in each measurement, all of the PCR's length, and ends with the PCR's value.
   */
  predicate Run(hash: HashFunction, raw: seq<RawEvent>, pcr: PCR, ks: seq<nat>, l: byte, ds: seq<bytes>, vs: seq<bytes>)
    requires forall i | 0 <= i < |ks| :: ks[i] < |raw|
  {
    && |ds| == |ks| && (forall i | 0 <= i < |ks| :: FirstOf(raw[ks[i]].digests, pcr.alg, ds[i]) && |ds[i]| == |pcr.digest|)
    && Extends(hash, pcr.alg, Copies(0, Length(pcr.alg) - 1) + [l], ds, vs)
    && vs[|ks|] == pcr.digest
  }

  lemma AllDigestedAt(raw: seq<RawEvent>, pcr: PCR, ks: seq<nat>)
    requires MeasuredAt(raw, {pcr.index}, ks)
    ensures AllDigested(raw, pcr) <==> forall i | 0 <= i < |ks| :: Digested(raw[ks[i]], pcr)
  {
    if AllDigested(raw, pcr) {
      forall i | 0 <= i < |ks| ensures Digested(raw[ks[i]], pcr) {
        assert ks[i] in ks && raw[ks[i]] in raw;
      }
    }
    if forall i | 0 <= i < |ks| :: Digested(raw[ks[i]], pcr) {
      forall e | e in raw && Measures(e, pcr.index) ensures Digested(e, pcr) {
        var k :| 0 <= k < |raw| && raw[k] == e;
        assert k in Measured(raw, {pcr.index});
        var i :| 0 <= i < |ks| && ks[i] == k;
      }
    }
  }

  lemma InitialIs(alg: CryptoHash, l: byte)
    requires Supported(alg)
    ensures Initial(alg, l) == Copies(0, Length(alg) - 1) + [l]
  {
  }

  lemma RunsWhenReplayed(hash: HashFunction, raw: seq<RawEvent>, pcr: PCR, ks: seq<nat>)
    returns (ds: seq<bytes>, vs: seq<bytes>)
    requires MeasuredAt(raw, {pcr.index}, ks) && ks != [] && Replays(hash, raw, pcr)
    ensures Supported(pcr.alg) && Run(hash, raw, pcr, ks, StartLocality(raw, pcr.index), ds, vs)
  {
    var l := StartLocality(raw, pcr.index);
    EventsForAre(raw, pcr.index, pcr.alg, ks);
    AllDigestedAt(raw, pcr, ks);
    ds := Digests(EventsFor(raw, pcr.index, pcr.alg));
    forall i | 0 <= i < |ks| ensures FirstOf(raw[ks[i]].digests, pcr.alg, ds[i]) && |ds[i]| == |pcr.digest| {
      FirstOfIs(raw[ks[i]].digests, pcr.alg, ds[i]);
    }
    InitialIs(pcr.alg, l);
    vs := Passed(hash, pcr.alg, Initial(pcr.alg, l), ds);
    ExtendsIsChain(hash, pcr.alg, Initial(pcr.alg, l), ds, vs);
  }

  lemma ReplaysWhenRun(hash: HashFunction, raw: seq<RawEvent>, pcr: PCR, ks: seq<nat>, ds: seq<bytes>, vs: seq<bytes>)
    requires MeasuredAt(raw, {pcr.index}, ks) && Supported(pcr.alg)
    requires Run(hash, raw, pcr, ks, StartLocality(raw, pcr.index), ds, vs)
    ensures Replays(hash, raw, pcr)
  {
    var l := StartLocality(raw, pcr.index);
    EventsForAre(raw, pcr.index, pcr.alg, ks);
    forall i | 0 <= i < |ks| ensures BankDigest(raw[ks[i]].digests, pcr.alg) == Some(ds[i]) {
      FirstOfIs(raw[ks[i]].digests, pcr.alg, ds[i]);
    }
    AllDigestedAt(raw, pcr, ks);
    assert ds == Digests(EventsFor(raw, pcr.index, pcr.alg));
    InitialIs(pcr.alg, l);
    ExtendsIsChain(hash, pcr.alg, Initial(pcr.alg, l), ds, vs);
  }

  /** A log that measures a PCR explains its value exactly when the register can have run through the log to it. */
  lemma ReplaysIff(hash: HashFunction, raw: seq<RawEvent>, pcr: PCR, ks: seq<nat>, l: byte)
    requires MeasuredAt(raw, {pcr.index}, ks) && ks != [] && StartsFrom(raw, pcr.index, l)
    ensures Replays(hash, raw, pcr) <==>
              (pcr.alg == SHA1 || pcr.alg == SHA256) && exists ds, vs :: Run(hash, raw, pcr, ks, l, ds, vs)
  {
    StartsFromLocality(raw, pcr.index);
    OneStart(raw, pcr.index, l, StartLocality(raw, pcr.index));
    if Replays(hash, raw, pcr) {
      var ds, vs := RunsWhenReplayed(hash, raw, pcr, ks);
    }
    if ds, vs :| Supported(pcr.alg) && Run(hash, raw, pcr, ks, l, ds, vs) {
      ReplaysWhenRun(hash, raw, pcr, ks, ds, vs);
    }
  }

  lemma OneStart(raw: seq<RawEvent>, index: int, l: byte, m: byte)
    requires StartsFrom(raw, index, l) && StartsFrom(raw, index, m)
    ensures l == m
  {
  }

  /** A replay panics when the PCR has no bank and the first digest without bank in its first measurement has its length. */
  lemma PanicsIff(raw: seq<RawEvent>, pcr: PCR, ks: seq<nat>)
    requires MeasuredAt(raw, {pcr.index}, ks)
    ensures Panics(raw, pcr) <==>
              pcr.alg == NoHash && ks != [] && FirstSized(raw[ks[0]].digests, NoHash, |pcr.digest|)
  {
    if ks == [] {
      NothingMeasured(raw, pcr.index, pcr.alg);
      EventsForAre(raw, pcr.index, pcr.alg, ks);
      UnmeasuredNeverPanics(raw, pcr);
    } else {
      assert ks[0] in ks;
      forall k | 0 <= k < ks[0] ensures !(raw[k].index == pcr.index && raw[k].typ != 3) {
        assert k in Measured(raw, {pcr.index}) ==> k in ks;
      }
      MeasuredBeforeIs(raw, pcr.index, ks[0]);
      PanicsAt(raw, pcr, ks[0]);
      DigestedIs(raw[ks[0]], pcr);
    }
  }

  // ----- One measurement, with and without a locality -----

  /** A measurement with one digest. */
  predicate Measurement(e: RawEvent, index: int, alg: CryptoHash, d: bytes) {
    e.index == index && e.typ != 3 && e.digests == [Digest(if alg == SHA1 then SHA1 else SHA256, d)] && |d| == Length(alg)
  }

  lemma OneMeasured(hash: HashFunction, raw: seq<RawEvent>, pcr: PCR, d: bytes, l: byte)
    requires raw != [] && (pcr.alg == SHA1 || pcr.alg == SHA256)
    requires Measurement(raw[|raw| - 1], pcr.index, pcr.alg, d) && !MeasuredBefore(raw, pcr.index, |raw| - 1)
    requires StartsFrom(raw, pcr.index, l)
    ensures Replays(hash, raw, pcr) <==> pcr.digest == hash(pcr.alg, Copies(0, Length(pcr.alg) - 1) + [l] + d)
  {
    var n := |raw| - 1;
    var start, v := Copies(0, Length(pcr.alg) - 1) + [l], hash(pcr.alg, Copies(0, Length(pcr.alg) - 1) + [l] + d);
    ReplaysIff(hash, raw, pcr, [n], l);
    assert FirstAt(raw[n].digests, pcr.alg, 0);
    if pcr.digest == v {
      assert Run(hash, raw, pcr, [n], l, [d], [start, v]);
    }
  }

  /** The first extension starts from zeros. */
  lemma FromZeros(hash: HashFunction, e: RawEvent, pcr: PCR, d: bytes)
    requires (pcr.alg == SHA1 || pcr.alg == SHA256) && Measurement(e, pcr.index, pcr.alg, d)
    ensures Replays(hash, [e], pcr) <==> pcr.digest == hash(pcr.alg, Copies(0, |d|) + d)
  {
    assert Copies(0, |d| - 1) + [0] == Copies(0, |d|);
    OneMeasured(hash, [e], pcr, d, 0);
  }

  /** PCR 0 starts from the announced locality. */
  lemma FromLocality(hash: HashFunction, s: RawEvent, e: RawEvent, pcr: PCR, d: bytes, x: byte, l: byte)
    requires (pcr.alg == SHA1 || pcr.alg == SHA256) && pcr.index == 0 && Measurement(e, 0, pcr.alg, d)
    requires s.index == 0 && s.typ == 3 && s.data == Ascii("StartupLocality") + [x, l]
    ensures Replays(hash, [s, e], pcr) <==> pcr.digest == hash(pcr.alg, Copies(0, |d| - 1) + [l] + d)
  {
    assert s.data[..15] == Ascii("StartupLocality");
    assert AnnouncesAt([s, e], 0);
    OneMeasured(hash, [s, e], pcr, d, l);
  }

  /** An event of type 3 that announces no locality to the PCR, or too late, changes nothing. */
  lemma NoActionIgnored(hash: HashFunction, a: seq<RawEvent>, s: RawEvent, b: seq<RawEvent>, pcr: PCR)
    requires s.typ == 3
    requires pcr.index != 0 || !Announces(s) || MeasuredBefore(a, 0, |a|)
    ensures Replays(hash, a + [s] + b, pcr) <==> Replays(hash, a + b, pcr)
  {
    MeasuredBeforeIs(a, 0, |a|);
    SetsIs(s, pcr.index);
    assert a[..|a|] == a;
    WithoutNoAction(a, s, b, pcr.index, pcr.alg);
    assert forall x :: x in a + [s] + b <==> x in a + b || x == s;
  }

  lemma {:induction false} WithoutNoAction(a: seq<RawEvent>, s: RawEvent, b: seq<RawEvent>, index: int, alg: CryptoHash)
    requires s.typ == 3 && !(SetsLocality(s, index) && Unmeasured(a, index))
    ensures EventsFor(a + [s] + b, index, alg) == EventsFor(a + b, index, alg)
    ensures StartLocality(a + [s] + b, index) == StartLocality(a + b, index)
    ensures Unmeasured(a + [s] + b, index) <==> Unmeasured(a + b, index)
  {
    if b == [] {
      assert a + [s] + b == a + [s] && a + b == a;
      assert (a + [s])[..|a|] == a;
    } else {
      var front, e := b[..|b| - 1], b[|b| - 1];
      WithoutNoAction(a, s, front, index, alg);
      assert (a + [s] + b)[..|a + [s] + b| - 1] == a + [s] + front && (a + b)[..|a + b| - 1] == a + front;
    }
  }

  // ----- All provided PCRs -----

  /** An index fails when it is provided and the log explains none of the PCRs provided for it. */
  lemma FailingIs(hash: HashFunction, raw: seq<RawEvent>, pcrs: seq<PCR>, i: int)
    ensures i in Failing(hash, raw, pcrs) <==>
              && (exists p | p in pcrs :: p.index == i)
              && forall p | p in pcrs && p.index == i :: !Replays(hash, raw, p)
  {
    FirstBankReplays(hash, raw, pcrs, i);
  }

  /** The bank chosen for an index is that of the first PCR in the slice that the log explains. */
  lemma {:induction false} FirstBankIs(hash: HashFunction, raw: seq<RawEvent>, pcrs: seq<PCR>, k: nat)
    requires k < |pcrs| && Replays(hash, raw, pcrs[k])
    requires forall j | 0 <= j < k && pcrs[j].index == pcrs[k].index :: !Replays(hash, raw, pcrs[j])
    ensures FirstBank(hash, raw, pcrs, pcrs[k].index) == Some(pcrs[k])
  {
    var front := pcrs[..|pcrs| - 1];
    if k == |front| {
      FirstBankReplays(hash, raw, front, pcrs[k].index);
    } else {
      FirstBankIs(hash, raw, front, k);
    }
  }

  lemma {:induction false} MatchedAre(raw: seq<RawEvent>, banks: map<int, CryptoHash>, ks: seq<nat>)
    requires MeasuredAt(raw, banks.Keys, ks)
    ensures |Matched(raw, banks)| == |ks|
    ensures forall i | 0 <= i < |ks| :: var e := raw[ks[i]];
              e.index in banks &&
              Matched(raw, banks)[i] ==
              Event(e.sequence, e.index, e.typ, e.data, BankDigest(e.digests, banks[e.index]).GetOr([]))
  {
    if raw == [] {
    } else {
      PositionsBefore(raw, banks.Keys, ks);
      var n := |raw| - 1;
      if raw[n].index in banks && raw[n].typ != 3 {
        MatchedAre(raw[..n], banks, ks[..|ks| - 1]);
      } else {
        MatchedAre(raw[..n], banks, ks);
      }
      assert forall i | 0 <= i < |ks| :: ks[i] in ks;
    }
  }

  /** A verified event: what the log says at a position, with the digest of a bank that the log explains. */
  predicate VerifiedAs(hash: HashFunction, raw: seq<RawEvent>, pcrs: seq<PCR>, e: RawEvent, v: Event) {
    && v == Event(e.sequence, e.index, e.typ, e.data, v.digest)
    && exists k | 0 <= k < |pcrs| ::
         && pcrs[k].index == e.index && Replays(hash, raw, pcrs[k])
         && (forall j | 0 <= j < k && pcrs[j].index == e.index :: !Replays(hash, raw, pcrs[j]))
         && FirstOf(e.digests, pcrs[k].alg, v.digest)
  }

  lemma {:induction false} FirstBankFound(hash: HashFunction, raw: seq<RawEvent>, pcrs: seq<PCR>, index: int)
    returns (k: nat)
    requires FirstBank(hash, raw, pcrs, index).Some?
    ensures k < |pcrs| && FirstBank(hash, raw, pcrs, index) == Some(pcrs[k])
    ensures pcrs[k].index == index && Replays(hash, raw, pcrs[k])
    ensures forall j | 0 <= j < k && pcrs[j].index == index :: !Replays(hash, raw, pcrs[j])
  {
    var front := pcrs[..|pcrs| - 1];
    if FirstBank(hash, raw, front, index).Some? {
      k := FirstBankFound(hash, raw, front, index);
    } else {
      k := |front|;
      FirstBankReplays(hash, raw, front, index);
      assert forall j | 0 <= j < k :: pcrs[j] in front;
    }
  }

  /** When nothing fails, the verified events are all measurements of the provided PCRs, in log order. */
  lemma VerifiedEventsAre(hash: HashFunction, raw: seq<RawEvent>, pcrs: seq<PCR>, ks: seq<nat>)
    requires Failing(hash, raw, pcrs) == {} && MeasuredAt(raw, set p | p in pcrs :: p.index, ks)
    ensures |VerifiedEvents(hash, raw, pcrs)| == |ks|
    ensures forall i | 0 <= i < |ks| :: VerifiedAs(hash, raw, pcrs, raw[ks[i]], VerifiedEvents(hash, raw, pcrs)[i])
  {
    var banks := Banks(hash, raw, pcrs);
    forall i | i in Provided(pcrs) ensures i in banks {
      assert i !in Failing(hash, raw, pcrs);
    }
    assert banks.Keys == Provided(pcrs);
    MatchedAre(raw, banks, ks);
    forall i | 0 <= i < |ks| ensures VerifiedAs(hash, raw, pcrs, raw[ks[i]], VerifiedEvents(hash, raw, pcrs)[i]) {
      var e := raw[ks[i]];
      var k := FirstBankFound(hash, raw, pcrs, e.index);
      assert ks[i] in ks && e in raw && Digested(e, pcrs[k]);
      FirstOfIs(e.digests, pcrs[k].alg, BankDigest(e.digests, pcrs[k].alg).value);
    }
  }

  /** When something fails, all events are reported, without digests. */
  lemma UnverifiedAre(raw: seq<RawEvent>, i: nat)
    requires i < |raw|
    ensures |Unverified(raw)| == |raw|
    ensures Unverified(raw)[i] == Event(raw[i].sequence, raw[i].index, raw[i].typ, raw[i].data, [])
  {
  }

  /** The digest of an event is compared with both hashes of the data; its length decides which it can be. */
  lemma DigestMeans(hash: HashFunction, e: Event, b: bytes)
    ensures DigestEquals(hash, e, b) <==> e.digest == hash(SHA1, b) || e.digest == hash(SHA256, b)
  {
  }
}
