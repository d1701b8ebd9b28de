/**
 Reading all PCRs of a TPM that may answer a request in part (attest/tpm.go:
 readAllPCRs20; attest/wrapped_tpm20.go: pcrs).
 */
module ReadPcrs {
  import opened Bytes
  import opened Hashing
  import opened Replay

  datatype PcrValue = PcrValue(digest: bytes)

  type PcrValues = map<int, PcrValue>

  /** What a TPM answers in a round to a selection: values, or an error. */
  type Tpm = (nat, seq<int>) -> Option<PcrValues>

  // ----- What the rounds amount to -----

  /** The PCRs that have a value. */
  function Received(out: PcrValues): set<int> {
    set p | p in out
  }

  /** Those of the first n PCRs that have no value yet, in order. */
  function Missing(out: PcrValues, n: nat): seq<int>
    decreases n, |Received(out)|
  {
    if n == 0 then [] else if n - 1 in out then Missing(out, n - 1) else Missing(out, n - 1) + [n - 1]
  }

  /** The values after the rounds from i to n; none after an error or when they are not n in the end. */
  function Rounds(tpm: Tpm, n: nat, i: nat, out: PcrValues): Option<PcrValues>
    requires i <= n
    decreases n - i, |Received(out)|
  {
    if i == n then if |Received(out)| == n then Some(out) else None
    else
      match tpm(i, Missing(out, n))
      case None => None
      case Some(ret) => if |Received(out + ret)| == n then Some(out + ret) else Rounds(tpm, n, i + 1, out + ret)
  }

  /** Answers hold only PCRs that were asked for. */
  predicate Answers(sel: seq<int>, ret: PcrValues) {
    forall p | p in ret :: p in sel
  }

  /** The TPM may fail or fall short, but gives nothing it was not asked for. */
  ghost predicate Honest(tpm: Tpm) {
    forall i, sel :: tpm(i, sel).Some? ==> Answers(sel, tpm(i, sel).value)
  }

  /** The TPM answers every request for something with at least one of the requested PCRs and nothing else. */
  ghost predicate Cooperative(tpm: Tpm) {
    forall i, sel | sel != [] :: tpm(i, sel).Some? && Answers(sel, tpm(i, sel).value) && Received(tpm(i, sel).value) != {}
  }

  /** The values are of PCRs below n. */
  predicate Below(out: PcrValues, n: nat) {
    forall p | p in out :: 0 <= p < n
  }

  /** There is a value of each PCR below n, and nothing else. */
  predicate Complete(out: PcrValues, n: nat) {
    Below(out, n) && forall p: nat | p < n :: p in out
  }

  // ----- What is missing -----

  lemma {:induction false} MissingAre(out: PcrValues, n: nat, p: int)
    ensures p in Missing(out, n) <==> 0 <= p < n && p !in out
  {
    if n == 0 {
    } else {
      MissingAre(out, n - 1, p);
    }
  }

  function KeysBelow(out: PcrValues, n: nat): set<int> {
    set p | p in out && 0 <= p < n
  }

  lemma {:induction false} MissingCount(out: PcrValues, n: nat)
    ensures |Missing(out, n)| + |KeysBelow(out, n)| == n
  {
    if n == 0 {
      assert KeysBelow(out, 0) == {};
    } else {
      MissingCount(out, n - 1);
      if n - 1 in out {
        assert KeysBelow(out, n) == KeysBelow(out, n - 1) + {n - 1};
      } else {
        assert KeysBelow(out, n) == KeysBelow(out, n - 1);
      }
    }
  }

  /** Among PCRs below n, having n values is having them all. */
  lemma CompleteIff(out: PcrValues, n: nat)
    requires Below(out, n)
    ensures |Missing(out, n)| == n - |Received(out)|
    ensures |Received(out)| == n <==> Complete(out, n)
  {
    MissingCount(out, n);
    assert KeysBelow(out, n) == Received(out);
    if |Received(out)| == n {
      forall p: nat | p < n ensures p in out {
        MissingAre(out, n, p);
      }
    }
    if Missing(out, n) != [] {
      MissingAre(out, n, Missing(out, n)[0]);
    }
  }

  // ----- One round and all of them -----

  /** One answer adds its PCRs to those known before, all of which are new. */
  lemma OneRound(out: PcrValues, ret: PcrValues, n: nat)
    requires Below(out, n) && Answers(Missing(out, n), ret)
    ensures Below(out + ret, n) && |Received(out + ret)| == |Received(out)| + |Received(ret)|
  {
    forall p | p in ret ensures 0 <= p < n && p !in out {
      MissingAre(out, n, p);
    }
    assert Received(out + ret) == Received(out) + Received(ret);
  }

  /** Success leaves no PCR below n out, and no other gets in. */
  lemma {:induction false} HonestResult(tpm: Tpm, n: nat, i: nat, out: PcrValues, end: PcrValues)
    requires Honest(tpm) && Below(out, n) && i <= n && Rounds(tpm, n, i, out) == Some(end)
    ensures Complete(end, n)
    decreases n - i
  {
    if i == n {
      CompleteIff(out, n);
    } else {
      var ret := tpm(i, Missing(out, n)).value;
      OneRound(out, ret, n);
      CompleteIff(out + ret, n);
      if |Received(out + ret)| != n {
        HonestResult(tpm, n, i + 1, out + ret, end);
      }
    }
  }

  /** Every round of a cooperative TPM adds a PCR, so n rounds suffice. */
  lemma {:induction false} CooperativeSucceeds(tpm: Tpm, n: nat, i: nat, out: PcrValues)
    requires Cooperative(tpm) && Below(out, n) && i <= |Received(out)| < n
    ensures Rounds(tpm, n, i, out).Some? && Complete(Rounds(tpm, n, i, out).value, n)
    decreases n - i
  {
    CompleteIff(out, n);
    var ret := tpm(i, Missing(out, n)).value;
    OneRound(out, ret, n);
    CompleteIff(out + ret, n);
    if |Received(out + ret)| == n {
    } else {
      CooperativeSucceeds(tpm, n, i + 1, out + ret);
    }
  }

  /** The values known when round i is asked; none when the loop has ended before. */
  function KnownBefore(tpm: Tpm, n: nat, i: nat): Option<PcrValues> {
    if i == 0 then Some(map[])
    else
      match KnownBefore(tpm, n, i - 1)
      case None => None
      case Some(out) =>
        match tpm(i - 1, Missing(out, n))
        case None => None
        case Some(ret) => if |Received(out + ret)| == n then None else Some(out + ret)
  }

  /** Round i was asked, for what was missing then, and gave this value. */
  predicate Gave(tpm: Tpm, n: nat, i: nat, p: int, value: PcrValue) {
    && KnownBefore(tpm, n, i).Some?
    && var answer := tpm(i, Missing(KnownBefore(tpm, n, i).value, n));
       answer.Some? && p in answer.value && answer.value[p] == value
  }

  /** The value of a PCR was given in one of the rounds. */
  predicate Given(tpm: Tpm, n: nat, p: int, value: PcrValue) {
    exists i | 0 <= i < n :: Gave(tpm, n, i, p, value)
  }

  /** No value is made up: each was there before round i or given in it or later. */
  lemma {:induction false} ValuesAreGiven(tpm: Tpm, n: nat, i: nat, out: PcrValues, end: PcrValues, p: int)
    requires i <= n && Rounds(tpm, n, i, out) == Some(end) && p in end
    requires i < n ==> KnownBefore(tpm, n, i) == Some(out)
    ensures (p in out && end[p] == out[p]) || Given(tpm, n, p, end[p])
    decreases n - i
  {
    if i == n {
    } else {
      var ret := tpm(i, Missing(out, n)).value;
      if |Received(out + ret)| != n {
        ValuesAreGiven(tpm, n, i + 1, out + ret, end, p);
      }
      assert p in ret ==> Gave(tpm, n, i, p, ret[p]);
    }
  }

  /** A round that fails ends the reading, one that leaves n values ends it with them, the newest for each PCR. */
  lemma RoundEnds(tpm: Tpm, n: nat, i: nat, out: PcrValues, p: int)
    requires i < n
    ensures tpm(i, Missing(out, n)) == None ==> Rounds(tpm, n, i, out) == None
    ensures tpm(i, Missing(out, n)).Some? && |out.Keys + tpm(i, Missing(out, n)).value.Keys| == n ==>
              var ret, end := tpm(i, Missing(out, n)).value, Rounds(tpm, n, i, out);
              && end.Some? && end.value.Keys == out.Keys + ret.Keys
              && (p in ret ==> end.value[p] == ret[p])
              && (p in out && p !in ret ==> end.value[p] == out[p])
  {
    if tpm(i, Missing(out, n)).Some? {
      var ret := tpm(i, Missing(out, n)).value;
      assert Received(out + ret) == out.Keys + ret.Keys;
    }
  }

  // ----- The loops -----

  const NUM_PCRS: nat := 24

  method Unread(out: PcrValues, n: nat) returns (sel: seq<int>)
    ensures sel == Missing(out, n)
  {
    sel := [];
    var pcr := 0;
    while pcr < n
      invariant 0 <= pcr <= n && sel == Missing(out, pcr)
    {
      if pcr !in out {
        sel := sel + [pcr];
      }
      pcr := pcr + 1;
    }
  }

  method ReadAllPCRs(tpm: Tpm, n: nat) returns (r: Option<PcrValues>)
    requires n > 0
    ensures r == Rounds(tpm, n, 0, map[])
    ensures r.Some? ==> |Received(r.value)| == n
    ensures Cooperative(tpm) ==> r.Some? && Complete(r.value, n)
    ensures Honest(tpm) && r.Some? ==> Complete(r.value, n)
  {
    ghost var result := Rounds(tpm, n, 0, map[]);
    if Cooperative(tpm) {
      CooperativeSucceeds(tpm, n, 0, map[]);
    }
    if Honest(tpm) && result.Some? {
      HonestResult(tpm, n, 0, map[], result.value);
    }
    var out: PcrValues, i := map[], 0;
    while i < n
      invariant 0 <= i <= n && result == Rounds(tpm, n, i, out)
      invariant i == n ==> |Received(out)| != n
    {
      var sel := Unread(out, n);
      var ret := tpm(i, sel);
      if ret == None {
        return None;
      }
      out, i := out + ret.value, i + 1;
      assert Received(out) == out.Keys;
      if |out| == n {
        return Some(out);
      }
    }
    r := None;
  }

  method ReadAllPCRs20(tpm: Tpm) returns (r: Option<PcrValues>)
    ensures r == Rounds(tpm, NUM_PCRS, 0, map[])
    ensures r.Some? ==> |Received(r.value)| == NUM_PCRS
    ensures Cooperative(tpm) ==> r.Some? && Complete(r.value, NUM_PCRS)
    ensures Honest(tpm) && r.Some? ==> Complete(r.value, NUM_PCRS)
  {
    r := ReadAllPCRs(tpm, NUM_PCRS);
  }

  datatype Outcome = Read(pcrs: seq<PCR>) | Failed | OutOfRange

  /** Some key that a map's iteration has not yielded yet. */
  method NextKey<K>(left: set<K>) returns (key: K)
    requires left != {}
    ensures key in left
  {
    key :| key in left;
  }

  /** The values by index, in whatever order the map yields them. */
  method ByIndex(values: PcrValues, alg: byte) returns (r: Outcome)
    ensures var n := |Received(values)|;
            && (r == OutOfRange <==> !Below(values, n))
            && (r != OutOfRange ==> r.Read? && |r.pcrs| == n && forall k: nat | k < n ::
                  k in values && r.pcrs[k] == PCR(k, values[k].digest, CryptoHashOf(alg), false))
  {
    assert values.Keys == Received(values);
    var n := |values.Keys|;
    var out := new PCR[n](_ => PCR(0, [], NoHash, false));
    var left := values.Keys;
    while left != {}
      invariant left <= Received(values)
      invariant forall k | k in values && k !in left ::
                  0 <= k < n && out[k] == PCR(k, values[k].digest, CryptoHashOf(alg), false)
      decreases |left|
    {
      var index := NextKey(left);
      if index < 0 || index >= out.Length {
        assert index in values;
        return OutOfRange;
      }
      out[index] := PCR(index, values[index].digest, CryptoHashOf(alg), false);
      left := left - {index};
    }
    CompleteIff(values, n);
    r := Read(out[..]);
  }

  /**
   wrappedTPM20.pcrs: fails exactly when the rounds do, and otherwise fills the slots with
   their values unless these are not of PCRs 0 to 23, which takes a TPM that answers what it
   was not asked.
   */
  method PCRs(tpm: Tpm, alg: byte) returns (r: Outcome)
    ensures r == Failed <==> Rounds(tpm, NUM_PCRS, 0, map[]) == None
    ensures r != Failed ==> (r == OutOfRange <==> !Complete(Rounds(tpm, NUM_PCRS, 0, map[]).value, NUM_PCRS))
    ensures r.Read? ==>
              var values := Rounds(tpm, NUM_PCRS, 0, map[]).value;
              && |r.pcrs| == NUM_PCRS == 24
              && forall k: nat | k < NUM_PCRS ::
                   && k in values && r.pcrs[k] == PCR(k, values[k].digest, CryptoHashOf(alg), false)
                   && Given(tpm, NUM_PCRS, k, values[k])
    ensures Honest(tpm) ==> r != OutOfRange
    ensures Cooperative(tpm) ==> r.Read?
  {
    var values := ReadAllPCRs20(tpm);
    if values == None {
      return Failed;
    }
    CompleteWhenBelow(values.value, NUM_PCRS);
    r := ByIndex(values.value, alg);
    forall p | p in values.value ensures Given(tpm, NUM_PCRS, p, values.value[p]) {
      ValuesAreGiven(tpm, NUM_PCRS, 0, map[], values.value, p);
    }
  }

  lemma CompleteWhenBelow(values: PcrValues, n: nat)
    requires |Received(values)| == n
    ensures Below(values, n) <==> Complete(values, n)
  {
    if Below(values, n) {
      CompleteIff(values, n);
    }
  }
}
