/**
 Replay against every provided PCR and bank, and the merge of the replays into one
 list of events (attest/eventlog.go: replayEvents).
 */
module Merge {
  import opened Bytes
  import opened Hashing
  import opened Replay
  import opened Sorting

  datatype ReplayResult =
    Verified(events: seq<Event>) | ReplayError(events: seq<Event>, invalidPCRs: seq<int>) | Panicked

  function Sequence(e: Event): int {
    e.sequence
  }

  function RawSequence(e: RawEvent): int {
    e.sequence
  }

  // ----- What the merge means -----

  function Provided(pcrs: seq<PCR>): set<int> {
    set p | p in pcrs :: p.index
  }

  /** The first provided PCR with this index that the log explains. */
  function FirstBank(hash: HashFunction, raw: seq<RawEvent>, pcrs: seq<PCR>, index: int): Option<PCR> {
    if pcrs == [] then None
    else
      var earlier, p := FirstBank(hash, raw, pcrs[..|pcrs| - 1], index), pcrs[|pcrs| - 1];
      if earlier == None && p.index == index && Replays(hash, raw, p) then Some(p) else earlier
  }

  lemma FirstBankReplays(hash: HashFunction, raw: seq<RawEvent>, pcrs: seq<PCR>, index: int)
    ensures var p := FirstBank(hash, raw, pcrs, index);
            p.Some? ==> p.value in pcrs && p.value.index == index && Replays(hash, raw, p.value)
    ensures FirstBank(hash, raw, pcrs, index) == None <==>
              forall p | p in pcrs && p.index == index :: !Replays(hash, raw, p)
  {
  }

  /** Indices for which no provided bank replays. */
  function Failing(hash: HashFunction, raw: seq<RawEvent>, pcrs: seq<PCR>): set<int> {
    set i | i in Provided(pcrs) && FirstBank(hash, raw, pcrs, i) == None
  }

  /** The bank chosen for each index that replays. */
  function Banks(hash: HashFunction, raw: seq<RawEvent>, pcrs: seq<PCR>): map<int, CryptoHash> {
    map i | i in Provided(pcrs) && FirstBank(hash, raw, pcrs, i).Some? :: FirstBank(hash, raw, pcrs, i).value.alg
  }

  /** The measurements of the banks' PCRs in log order, each with its bank's digest. */
  function Matched(raw: seq<RawEvent>, banks: map<int, CryptoHash>): seq<Event> {
    if raw == [] then []
    else
      var front, e := raw[..|raw| - 1], raw[|raw| - 1];
      Matched(front, banks) +
      if e.index in banks && e.typ != EV_NO_ACTION then [Observed(e, banks[e.index])] else []
  }

  function VerifiedEvents(hash: HashFunction, raw: seq<RawEvent>, pcrs: seq<PCR>): seq<Event> {
    Matched(raw, Banks(hash, raw, pcrs))
  }

  function Unverified(raw: seq<RawEvent>): seq<Event> {
    seq(|raw|, i requires 0 <= i < |raw| => Event(raw[i].sequence, raw[i].index, raw[i].typ, raw[i].data, []))
  }

  function Elements<T>(s: seq<T>): set<T> {
    set x | x in s
  }

  predicate NoDuplicates<T(==)>(s: seq<T>) {
    forall i, j | 0 <= i < j < |s| :: s[i] != s[j]
  }

  /** Every PCR is replayed, so one that panics stops them all. */
  predicate AnyPanics(raw: seq<RawEvent>, pcrs: seq<PCR>) {
    exists p | p in pcrs :: Panics(raw, p)
  }

  /** All that replayEvents promises, whatever order its map and its sort use. */
  predicate Outcome(hash: HashFunction, raw: seq<RawEvent>, pcrs: seq<PCR>, r: ReplayResult) {
    match r
    case Panicked => AnyPanics(raw, pcrs)
    case Verified(events) =>
      && !AnyPanics(raw, pcrs)
      && Failing(hash, raw, pcrs) == {}
      && SortedBy(events, Sequence)
      && multiset(events) == multiset(VerifiedEvents(hash, raw, pcrs))
    case ReplayError(events, invalid) =>
      && !AnyPanics(raw, pcrs)
      && Failing(hash, raw, pcrs) != {}
      && Elements(invalid) == Failing(hash, raw, pcrs)
      && NoDuplicates(invalid)
      && events == Unverified(raw)
  }

  // ----- The merge itself -----

  function FirstSuccess(rs: seq<Option<seq<Event>>>): Option<seq<Event>> {
    if rs == [] then None else if rs[0].Some? then rs[0] else FirstSuccess(rs[1..])
  }

  lemma FirstSuccessAppend(rs: seq<Option<seq<Event>>>, r: Option<seq<Event>>)
    ensures FirstSuccess(rs + [r]) == if FirstSuccess(rs).Some? then FirstSuccess(rs) else r
  {
    if rs == [] {
    } else {
      FirstSuccessAppend(rs[1..], r);
      assert (rs + [r])[1..] == rs[1..] + [r];
    }
  }

  /** The replay of the first bank that succeeds. */
  function BankReplay(hash: HashFunction, raw: seq<RawEvent>, pcrs: seq<PCR>, index: int): Option<seq<Event>> {
    match FirstBank(hash, raw, pcrs, index)
    case None => None
    case Some(p) => Some(EventsFor(raw, index, p.alg))
  }

  lemma OneMorePCR(hash: HashFunction, raw: seq<RawEvent>, pcrs: seq<PCR>, p: PCR, i: int)
    ensures BankReplay(hash, raw, pcrs + [p], i) ==
            if BankReplay(hash, raw, pcrs, i) == None && i == p.index && Replays(hash, raw, p)
            then Some(EventsFor(raw, i, p.alg)) else BankReplay(hash, raw, pcrs, i)
  {
  }

  type PCRReplays = map<int, seq<Option<seq<Event>>>>

  /** The replays of the given PCRs, by index and in order. */
  predicate ReplayedEach(hash: HashFunction, raw: seq<RawEvent>, pcrs: seq<PCR>, all: PCRReplays) {
    && all.Keys == Provided(pcrs)
    && forall i | i in all :: FirstSuccess(all[i]) == BankReplay(hash, raw, pcrs, i)
  }

  /** What was recorded for an index. */
  function Recorded(all: PCRReplays, index: int): seq<Option<seq<Event>>> {
    if index in all then all[index] else []
  }

  lemma RecordedIs(hash: HashFunction, raw: seq<RawEvent>, pcrs: seq<PCR>, all: PCRReplays, index: int)
    requires ReplayedEach(hash, raw, pcrs, all)
    ensures FirstSuccess(Recorded(all, index)) == BankReplay(hash, raw, pcrs, index)
  {
    FirstBankReplays(hash, raw, pcrs, index);
  }

  lemma ReplayedMore(hash: HashFunction, raw: seq<RawEvent>, pcrs: seq<PCR>, all: PCRReplays, p: PCR,
                     r: Option<seq<Event>>)
    requires ReplayedEach(hash, raw, pcrs, all)
    requires r == if Replays(hash, raw, p) then Some(EventsFor(raw, p.index, p.alg)) else None
    ensures ReplayedEach(hash, raw, pcrs + [p], all[p.index := Recorded(all, p.index) + [r]])
  {
    var more := all[p.index := Recorded(all, p.index) + [r]];
    assert Provided(pcrs + [p]) == Provided(pcrs) + {p.index};
    forall i | i in more ensures FirstSuccess(more[i]) == BankReplay(hash, raw, pcrs + [p], i) {
      OneMorePCR(hash, raw, pcrs, p, i);
      if i == p.index {
        RecordedIs(hash, raw, pcrs, all, i);
        FirstSuccessAppend(Recorded(all, i), r);
      }
    }
  }

  method ReplayEach(hash: HashFunction, rawEvents: seq<RawEvent>, pcrs: seq<PCR>) returns (replays: Option<PCRReplays>)
    ensures replays == None <==> AnyPanics(rawEvents, pcrs)
    ensures replays.Some? ==> ReplayedEach(hash, rawEvents, pcrs, replays.value)
  {
    var all: PCRReplays, k := map[], 0;
    while k < |pcrs|
      invariant 0 <= k <= |pcrs|
      invariant !AnyPanics(rawEvents, pcrs[..k])
      invariant ReplayedEach(hash, rawEvents, pcrs[..k], all)
    {
      var pcr := pcrs[k];
      var replayed := ReplayPCR(hash, rawEvents, pcr);
      if replayed == ReplayPanicked {
        assert pcr in pcrs;
        return None;
      }
      var r := if replayed.Explained? then Some(replayed.events) else None;
      ReplayedMore(hash, rawEvents, pcrs[..k], all, pcr, r);
      TakeOneMore(pcrs, k);
      all := all[pcr.index := Recorded(all, pcr.index) + [r]];
      k := k + 1;
    }
    assert pcrs[..k] == pcrs;
    replays := Some(all);
  }

  method FindSuccess(replays: seq<Option<seq<Event>>>) returns (r: Option<seq<Event>>)
    ensures r == FirstSuccess(replays)
  {
    var j := 0;
    while j < |replays|
      invariant 0 <= j <= |replays|
      invariant FirstSuccess(replays) == FirstSuccess(replays[j..])
    {
      if replays[j].Some? {
        return replays[j];
      }
      j := j + 1;
    }
    r := None;
  }

  /** The state of the merge loop with the indices of todo still to be visited. */
  predicate MergedTo(hash: HashFunction, raw: seq<RawEvent>, pcrs: seq<PCR>, todo: set<int>,
                     invalid: seq<int>, verified: seq<Event>) {
    && Elements(invalid) == Failing(hash, raw, pcrs) - todo
    && NoDuplicates(invalid)
    && multiset(verified) == multiset(Matched(raw, Banks(hash, raw, pcrs) - todo))
  }

  lemma MergeStarts(hash: HashFunction, raw: seq<RawEvent>, pcrs: seq<PCR>)
    ensures MergedTo(hash, raw, pcrs, Provided(pcrs), [], [])
  {
    assert Banks(hash, raw, pcrs) - Provided(pcrs) == map[];
    NothingMatched(raw);
  }

  lemma MergeReplayed(hash: HashFunction, raw: seq<RawEvent>, pcrs: seq<PCR>, todo: set<int>, i: int,
                      invalid: seq<int>, verified: seq<Event>)
    requires i in todo && todo <= Provided(pcrs) && MergedTo(hash, raw, pcrs, todo, invalid, verified)
    requires BankReplay(hash, raw, pcrs, i).Some?
    ensures MergedTo(hash, raw, pcrs, todo - {i}, invalid, verified + BankReplay(hash, raw, pcrs, i).value)
  {
    BanksMore(hash, raw, pcrs, todo, i);
    MatchedMore(raw, Banks(hash, raw, pcrs) - todo, i, FirstBank(hash, raw, pcrs, i).value.alg);
  }

  lemma OneMoreIndex(a: seq<int>, i: int)
    requires NoDuplicates(a) && i !in a
    ensures NoDuplicates(a + [i]) && Elements(a + [i]) == Elements(a) + {i}
  {
  }

  lemma MergeFailed(hash: HashFunction, raw: seq<RawEvent>, pcrs: seq<PCR>, todo: set<int>, i: int,
                    invalid: seq<int>, verified: seq<Event>)
    requires i in todo && todo <= Provided(pcrs) && MergedTo(hash, raw, pcrs, todo, invalid, verified)
    requires BankReplay(hash, raw, pcrs, i) == None
    ensures MergedTo(hash, raw, pcrs, todo - {i}, invalid + [i], verified)
  {
    BanksMore(hash, raw, pcrs, todo, i);
    assert i !in Elements(invalid);
    OneMoreIndex(invalid, i);
  }

  /** The order in which the indices are visited is left open, as Go leaves it. */
  method ReplayEvents(hash: HashFunction, rawEvents: seq<RawEvent>, pcrs: seq<PCR>) returns (r: ReplayResult)
    ensures Outcome(hash, rawEvents, pcrs, r)
  {
    var replays := ReplayEach(hash, rawEvents, pcrs);
    if replays == None {
      return Panicked;
    }
    var all := replays.value;
    var invalidReplays, verifiedEvents := [], [];
    var todo := all.Keys;
    MergeStarts(hash, rawEvents, pcrs);
    while todo != {}
      invariant todo <= all.Keys
      invariant MergedTo(hash, rawEvents, pcrs, todo, invalidReplays, verifiedEvents)
    {
      var i :| i in todo;
      var replay := FindSuccess(all[i]);
      if replay.Some? {
        MergeReplayed(hash, rawEvents, pcrs, todo, i, invalidReplays, verifiedEvents);
        verifiedEvents := verifiedEvents + replay.value;
      } else {
        MergeFailed(hash, rawEvents, pcrs, todo, i, invalidReplays, verifiedEvents);
        invalidReplays := invalidReplays + [i];
      }
      todo := todo - {i};
    }
    assert Banks(hash, rawEvents, pcrs) - {} == Banks(hash, rawEvents, pcrs);
    if |invalidReplays| > 0 {
      assert invalidReplays[0] in Elements(invalidReplays);
      return ReplayError(Unverified(rawEvents), invalidReplays);
    }
    verifiedEvents := SortSlice(verifiedEvents, Sequence);
    r := Verified(verifiedEvents);
  }

  lemma BanksMore(hash: HashFunction, raw: seq<RawEvent>, pcrs: seq<PCR>, todo: set<int>, i: int)
    requires i in todo && todo <= Provided(pcrs)
    ensures var p := FirstBank(hash, raw, pcrs, i);
            Banks(hash, raw, pcrs) - (todo - {i}) ==
            if p.Some? then (Banks(hash, raw, pcrs) - todo)[i := p.value.alg] else Banks(hash, raw, pcrs) - todo
    ensures Failing(hash, raw, pcrs) - (todo - {i}) ==
            Failing(hash, raw, pcrs) - todo + if FirstBank(hash, raw, pcrs, i) == None then {i} else {}
  {
  }

  lemma NothingMatched(raw: seq<RawEvent>)
    ensures Matched(raw, map[]) == []
  {
  }

  lemma {:induction false} MatchedMore(raw: seq<RawEvent>, banks: map<int, CryptoHash>, i: int, alg: CryptoHash)
    requires i !in banks
    ensures multiset(Matched(raw, banks[i := alg])) == multiset(Matched(raw, banks)) + multiset(EventsFor(raw, i, alg))
  {
    if raw == [] {
    } else {
      MatchedMore(raw[..|raw| - 1], banks, i, alg);
    }
  }

  // ----- The answer does not depend on the orders left open -----

  lemma MatchedFromLog(raw: seq<RawEvent>, banks: map<int, CryptoHash>)
    ensures forall e | e in Matched(raw, banks) :: exists x | x in raw :: x.sequence == e.sequence
  {
  }

  lemma {:induction false} MatchedDistinct(raw: seq<RawEvent>, banks: map<int, CryptoHash>)
    requires DistinctBy(raw, RawSequence)
    ensures DistinctBy(Matched(raw, banks), Sequence)
  {
    if raw == [] {
    } else {
      var front := raw[..|raw| - 1];
      MatchedDistinct(front, banks);
      MatchedFromLog(front, banks);
    }
  }

  lemma {:induction false} MatchedIncreasing(raw: seq<RawEvent>, banks: map<int, CryptoHash>)
    requires IncreasingBy(raw, RawSequence)
    ensures IncreasingBy(Matched(raw, banks), Sequence)
  {
    if raw == [] {
    } else {
      var front := raw[..|raw| - 1];
      MatchedIncreasing(front, banks);
      MatchedFromLog(front, banks);
    }
  }

  lemma DistinctPermutation(a: seq<Event>, b: seq<Event>)
    requires multiset(a) == multiset(b) && DistinctBy(a, Sequence)
    ensures DistinctBy(b, Sequence)
  {
    forall i, j | 0 <= i < j < |b| ensures Sequence(b[i]) != Sequence(b[j]) {
      InPermutation(a, b, b[i]);
      InPermutation(a, b, b[j]);
      if Sequence(b[i]) == Sequence(b[j]) {
        assert b[i] == b[j];
        assert b == b[..i] + [b[i]] + b[i + 1..j] + [b[j]] + b[j + 1..];
        assert multiset(b)[b[i]] >= 2;
        OncePerKey(a, b[i]);
      }
    }
  }

  lemma OncePerKey(a: seq<Event>, e: Event)
    requires DistinctBy(a, Sequence)
    ensures multiset(a)[e] <= 1
  {
    if a == [] {
    } else {
      OncePerKey(a[1..], e);
      assert a == [a[0]] + a[1..];
      if a[0] == e {
        assert e !in a[1..];
      }
    }
  }

  /** Any two outcomes for a log with distinct sequence numbers are the same. */
  lemma OrderDoesNotMatter(hash: HashFunction, raw: seq<RawEvent>, pcrs: seq<PCR>, r1: ReplayResult, r2: ReplayResult)
    requires DistinctBy(raw, RawSequence)
    requires Outcome(hash, raw, pcrs, r1) && Outcome(hash, raw, pcrs, r2)
    ensures r1.Verified? <==> r2.Verified?
    ensures r1 == Panicked <==> r2 == Panicked
    ensures r1.Verified? ==> r1 == r2
    ensures r1.ReplayError? ==> r1.events == r2.events && multiset(r1.invalidPCRs) == multiset(r2.invalidPCRs)
  {
    if r1.Verified? {
      MatchedDistinct(raw, Banks(hash, raw, pcrs));
      DistinctPermutation(VerifiedEvents(hash, raw, pcrs), r1.events);
      SortIsUnique(r1.events, r2.events, Sequence);
    } else if r1.ReplayError? {
      SameElements(r1.invalidPCRs, r2.invalidPCRs);
    }
  }

  lemma {:induction false} SameElements(a: seq<int>, b: seq<int>)
    requires NoDuplicates(a) && NoDuplicates(b) && Elements(a) == Elements(b)
    ensures multiset(a) == multiset(b)
  {
    ElementsOnce(a);
    ElementsOnce(b);
  }

  lemma ElementsOnce(a: seq<int>)
    requires NoDuplicates(a)
    ensures multiset(a) == multiset(Elements(a))
  {
    if a == [] {
    } else {
      ElementsOnce(a[1..]);
      assert a == [a[0]] + a[1..];
      assert Elements(a) == {a[0]} + Elements(a[1..]);
    }
  }

  /** On a log in sequence order the verified events come out in log order. */
  lemma VerifiedInLogOrder(hash: HashFunction, raw: seq<RawEvent>, pcrs: seq<PCR>, r: ReplayResult)
    requires IncreasingBy(raw, RawSequence)
    requires Outcome(hash, raw, pcrs, r) && r.Verified?
    ensures r.events == VerifiedEvents(hash, raw, pcrs)
  {
    MatchedIncreasing(raw, Banks(hash, raw, pcrs));
    SortIsUnique(VerifiedEvents(hash, raw, pcrs), r.events, Sequence);
  }
}
