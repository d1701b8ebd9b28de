/**
 Several quotes over one slice of PCRs (attest/attest.go: AKPublic.Verify,
 AKPublic.VerifyAll), and what quotes and event log establish together (the conditions
 listed at PlatformParameters).
 */
module Attestation {
  import opened Bytes
  import opened Hashing
  import opened Replay
  import opened Sorting
  import opened Merge
  import opened EventLogs
  import opened Quotes
  import opened QuoteBinding

  /** A PCR without its flag. */
  function Bare(p: PCR): PCR {
    p.(quoteVerified := false)
  }

  function AllBare(pcrs: seq<PCR>): (r: seq<PCR>)
    ensures |r| == |pcrs|
  {
    Mapped(Bare, pcrs)
  }

  /** The PCRs a slice holds, whatever their order and flags. */
  function Entries(pcrs: seq<PCR>): multiset<PCR> {
    multiset(AllBare(pcrs))
  }

  function FlagCovered(lib: Library, quote: Quote, pcrs: seq<PCR>): (r: seq<PCR>)
    ensures |r| == |pcrs|
  {
    Mapped(p => FlaggedIf(p, Covers(lib, quote, p)), pcrs)
  }

  /** An authentic TPM 1.2 quote is compared with the PCRs in index order. */
  predicate Arranged(lib: Library, ak: AKPublic, quote: Quote, pcrs: seq<PCR>, nonce: bytes) {
    quote.version == TPM12 && Signed12(lib, ak, quote, nonce) ==> SortedBy(pcrs, Index)
  }

  method Verify(lib: Library, ak: AKPublic, quote: Quote, pcrs: array<PCR>, nonce: bytes)
    returns (ok: bool, ghost arranged: seq<PCR>)
    modifies pcrs
    ensures multiset(arranged) == multiset(old(pcrs[..]))
    ensures quote.version != TPM12 ==> arranged == old(pcrs[..])
    ensures Arranged(lib, ak, quote, arranged, nonce)
    ensures ok <==> Verifies(lib, ak, quote, arranged, nonce)
    ensures pcrs[..] == if ok then FlagCovered(lib, quote, arranged) else arranged
  {
    match quote.version
    case TPM12 =>
      ok, arranged := Validate12Quote(lib, ak, quote, pcrs, nonce);
    case TPM20 =>
      arranged := pcrs[..];
      ok := Validate20Quote(lib, ak, quote, pcrs, nonce);
    case OtherVersion =>
      ok, arranged := false, pcrs[..];
  }

  // ----- All quotes -----

  /** The PCRs, flagged where one of the quotes covers them. */
  function FlaggedBy(lib: Library, quotes: seq<Quote>, pcrs: seq<PCR>): (r: seq<PCR>)
    ensures |r| == |pcrs|
  {
    if quotes == [] then pcrs
    else FlagCovered(lib, quotes[|quotes| - 1], FlaggedBy(lib, quotes[..|quotes| - 1], pcrs))
  }

  predicate CoveredBy(lib: Library, quotes: seq<Quote>, p: PCR) {
    exists q | q in quotes :: Covers(lib, q, p)
  }

  lemma {:induction false} FlaggedByAt(lib: Library, quotes: seq<Quote>, pcrs: seq<PCR>, k: nat)
    requires k < |pcrs|
    ensures FlaggedBy(lib, quotes, pcrs)[k] == FlaggedIf(pcrs[k], CoveredBy(lib, quotes, pcrs[k]))
  {
    if quotes == [] {
    } else {
      var front, last := quotes[..|quotes| - 1], quotes[|quotes| - 1];
      FlaggedByAt(lib, front, pcrs, k);
      assert quotes == front + [last];
      assert Covers(lib, last, FlaggedBy(lib, front, pcrs)[k]) == Covers(lib, last, pcrs[k]);
      assert CoveredBy(lib, quotes, pcrs[k]) <==> CoveredBy(lib, front, pcrs[k]) || Covers(lib, last, pcrs[k]);
    }
  }

  lemma FlaggedByBare(lib: Library, quotes: seq<Quote>, pcrs: seq<PCR>)
    ensures AllBare(FlaggedBy(lib, quotes, pcrs)) == AllBare(pcrs)
  {
    forall k | 0 <= k < |pcrs| ensures Bare(FlaggedBy(lib, quotes, pcrs)[k]) == Bare(pcrs[k]) {
      FlaggedByAt(lib, quotes, pcrs, k);
    }
  }

  /** The arrangement the i-th quote is compared with: what the quotes before it left, reordered for TPM 1.2. */
  predicate ArrangedAt(lib: Library, ak: AKPublic, quotes: seq<Quote>, nonce: bytes, before: seq<PCR>,
                       arrangements: seq<seq<PCR>>, i: nat)
    requires i < |quotes| && i < |arrangements|
  {
    && multiset(arrangements[i]) == multiset(FlaggedBy(lib, quotes[..i], before))
    && Arranged(lib, ak, quotes[i], arrangements[i], nonce)
    && ((forall q | q in quotes :: q.version != TPM12) ==> arrangements[i] == FlaggedBy(lib, quotes[..i], before))
  }

  predicate VerifiesAt(lib: Library, ak: AKPublic, quotes: seq<Quote>, nonce: bytes, arrangements: seq<seq<PCR>>, i: nat)
    requires i < |quotes| && i < |arrangements|
  {
    Verifies(lib, ak, quotes[i], arrangements[i], nonce)
  }

  /** Quotes are tried in order up to the first that does not verify. */
  predicate Tried(lib: Library, ak: AKPublic, quotes: seq<Quote>, nonce: bytes, before: seq<PCR>,
                  arrangements: seq<seq<PCR>>) {
    && |arrangements| <= |quotes|
    && (forall i | 0 <= i < |arrangements| :: ArrangedAt(lib, ak, quotes, nonce, before, arrangements, i))
    && (forall i | 0 <= i < |arrangements| - 1 :: VerifiesAt(lib, ak, quotes, nonce, arrangements, i))
    && (|arrangements| < |quotes| && nonce != [] ==>
          arrangements != [] && !VerifiesAt(lib, ak, quotes, nonce, arrangements, |arrangements| - 1))
  }

  /** There are quotes and a nonce, every quote verifies, and every PCR was flagged or is covered. */
  predicate Accepted(lib: Library, ak: AKPublic, quotes: seq<Quote>, nonce: bytes, before: seq<PCR>,
                     arrangements: seq<seq<PCR>>) {
    && quotes != [] && nonce != []
    && |arrangements| == |quotes|
    && (forall i | 0 <= i < |quotes| :: VerifiesAt(lib, ak, quotes, nonce, arrangements, i))
    && (forall p | p in before :: p.quoteVerified || CoveredBy(lib, quotes, p))
  }

  /** How many quotes verified. */
  function Verified(lib: Library, ak: AKPublic, quotes: seq<Quote>, nonce: bytes, arrangements: seq<seq<PCR>>): (n: nat)
    requires |arrangements| <= |quotes|
    ensures n <= |quotes|
  {
    if arrangements == [] then 0
    else if VerifiesAt(lib, ak, quotes, nonce, arrangements, |arrangements| - 1) then |arrangements|
    else |arrangements| - 1
  }

  lemma FlaggedByMore(lib: Library, quotes: seq<Quote>, i: nat, before: seq<PCR>)
    requires i < |quotes|
    ensures FlaggedBy(lib, quotes[..i + 1], before) == FlagCovered(lib, quotes[i], FlaggedBy(lib, quotes[..i], before))
  {
    assert quotes[..i + 1][..i] == quotes[..i];
  }

  lemma FlaggingPermutes(lib: Library, quotes: seq<Quote>, i: nat, before: seq<PCR>, arranged: seq<PCR>)
    requires i < |quotes| && multiset(arranged) == multiset(FlaggedBy(lib, quotes[..i], before))
    ensures multiset(FlagCovered(lib, quotes[i], arranged)) == multiset(FlaggedBy(lib, quotes[..i + 1], before))
  {
    FlaggedByMore(lib, quotes, i, before);
    MappedPermutes(p => FlaggedIf(p, Covers(lib, quotes[i], p)), arranged, FlaggedBy(lib, quotes[..i], before));
  }

  lemma AllFlagged(lib: Library, quotes: seq<Quote>, before: seq<PCR>, after: seq<PCR>)
    requires multiset(after) == multiset(FlaggedBy(lib, quotes, before))
    ensures (forall p | p in after :: p.quoteVerified) <==>
            (forall p | p in before :: p.quoteVerified || CoveredBy(lib, quotes, p))
  {
    var flagged := FlaggedBy(lib, quotes, before);
    forall p ensures p in after <==> p in flagged {
      InPermutation(after, flagged, p);
    }
    forall k | 0 <= k < |before| ensures flagged[k] == FlaggedIf(before[k], CoveredBy(lib, quotes, before[k])) {
      FlaggedByAt(lib, quotes, before, k);
    }
    assert forall k | 0 <= k < |before| :: flagged[k] in flagged && before[k] in before;
  }

  /** The state of the loop over the quotes: all tried so far have verified. */
  predicate VerifiedTo(lib: Library, ak: AKPublic, quotes: seq<Quote>, nonce: bytes, before: seq<PCR>,
                       now: seq<PCR>, arrangements: seq<seq<PCR>>) {
    && |arrangements| <= |quotes|
    && (forall i | 0 <= i < |arrangements| :: ArrangedAt(lib, ak, quotes, nonce, before, arrangements, i))
    && (forall i | 0 <= i < |arrangements| :: VerifiesAt(lib, ak, quotes, nonce, arrangements, i))
    && multiset(now) == multiset(FlaggedBy(lib, quotes[..|arrangements|], before))
    && ((forall q | q in quotes :: q.version != TPM12) ==> now == FlaggedBy(lib, quotes[..|arrangements|], before))
  }

  /** The next quote finds the slice in this order. */
  predicate Finds(lib: Library, ak: AKPublic, quote: Quote, nonce: bytes, now: seq<PCR>, arranged: seq<PCR>) {
    && multiset(arranged) == multiset(now)
    && (quote.version != TPM12 ==> arranged == now)
    && Arranged(lib, ak, quote, arranged, nonce)
  }

  lemma TryMore(lib: Library, ak: AKPublic, quotes: seq<Quote>, nonce: bytes, before: seq<PCR>,
                now: seq<PCR>, arrangements: seq<seq<PCR>>, arranged: seq<PCR>)
    requires VerifiedTo(lib, ak, quotes, nonce, before, now, arrangements) && |arrangements| < |quotes|
    requires Finds(lib, ak, quotes[|arrangements|], nonce, now, arranged)
    ensures var more := arrangements + [arranged];
            && (forall k | 0 <= k < |more| :: ArrangedAt(lib, ak, quotes, nonce, before, more, k))
            && (forall k | 0 <= k < |arrangements| :: VerifiesAt(lib, ak, quotes, nonce, more, k))
  {
    var more := arrangements + [arranged];
    assert quotes[|arrangements|] in quotes;
    forall k | 0 <= k < |more| ensures ArrangedAt(lib, ak, quotes, nonce, before, more, k) {
      if k < |arrangements| {
        assert ArrangedAt(lib, ak, quotes, nonce, before, arrangements, k);
      }
    }
    forall k | 0 <= k < |arrangements| ensures VerifiesAt(lib, ak, quotes, nonce, more, k) {
      assert VerifiesAt(lib, ak, quotes, nonce, arrangements, k);
    }
  }

  lemma VerifiedMore(lib: Library, ak: AKPublic, quotes: seq<Quote>, nonce: bytes, before: seq<PCR>,
                     now: seq<PCR>, arrangements: seq<seq<PCR>>, arranged: seq<PCR>)
    requires VerifiedTo(lib, ak, quotes, nonce, before, now, arrangements) && |arrangements| < |quotes|
    requires Finds(lib, ak, quotes[|arrangements|], nonce, now, arranged)
    requires Verifies(lib, ak, quotes[|arrangements|], arranged, nonce)
    ensures VerifiedTo(lib, ak, quotes, nonce, before,
                       FlagCovered(lib, quotes[|arrangements|], arranged), arrangements + [arranged])
  {
    var i := |arrangements|;
    TryMore(lib, ak, quotes, nonce, before, now, arrangements, arranged);
    FlaggingPermutes(lib, quotes, i, before, arranged);
    FlaggedByMore(lib, quotes, i, before);
    var more := arrangements + [arranged];
    assert |more| == i + 1 && quotes[i] in quotes;
    assert VerifiesAt(lib, ak, quotes, nonce, more, i);
  }

  lemma RefusedMore(lib: Library, ak: AKPublic, quotes: seq<Quote>, nonce: bytes, before: seq<PCR>,
                    now: seq<PCR>, arrangements: seq<seq<PCR>>, arranged: seq<PCR>)
    requires VerifiedTo(lib, ak, quotes, nonce, before, now, arrangements) && |arrangements| < |quotes|
    requires Finds(lib, ak, quotes[|arrangements|], nonce, now, arranged)
    requires !Verifies(lib, ak, quotes[|arrangements|], arranged, nonce)
    ensures var more := arrangements + [arranged];
            && Tried(lib, ak, quotes, nonce, before, more)
            && !Accepted(lib, ak, quotes, nonce, before, more)
            && Verified(lib, ak, quotes, nonce, more) == |arrangements|
  {
    TryMore(lib, ak, quotes, nonce, before, now, arrangements, arranged);
    assert !VerifiesAt(lib, ak, quotes, nonce, arrangements + [arranged], |arrangements|);
  }

  method VerifyEach(lib: Library, ak: AKPublic, quotes: seq<Quote>, pcrs: array<PCR>, nonce: bytes)
    returns (ok: bool, ghost arrangements: seq<seq<PCR>>)
    modifies pcrs
    ensures ok ==> |arrangements| == |quotes| &&
                   VerifiedTo(lib, ak, quotes, nonce, old(pcrs[..]), pcrs[..], arrangements)
    ensures !ok ==>
              && Tried(lib, ak, quotes, nonce, old(pcrs[..]), arrangements)
              && !Accepted(lib, ak, quotes, nonce, old(pcrs[..]), arrangements)
              && multiset(pcrs[..]) ==
                 multiset(FlaggedBy(lib, quotes[..Verified(lib, ak, quotes, nonce, arrangements)], old(pcrs[..])))
  {
    arrangements := [];
    var i := 0;
    while i < |quotes|
      invariant 0 <= i <= |quotes| && |arrangements| == i
      invariant VerifiedTo(lib, ak, quotes, nonce, old(pcrs[..]), pcrs[..], arrangements)
    {
      ghost var now := pcrs[..];
      var verified, arranged := Verify(lib, ak, quotes[i], pcrs, nonce);
      if !verified {
        RefusedMore(lib, ak, quotes, nonce, old(pcrs[..]), now, arrangements, arranged);
        return false, arrangements + [arranged];
      }
      VerifiedMore(lib, ak, quotes, nonce, old(pcrs[..]), now, arrangements, arranged);
      arrangements := arrangements + [arranged];
      i := i + 1;
    }
    ok := true;
  }

  method EachFlagged(pcrs: array<PCR>) returns (ok: bool)
    ensures ok <==> forall p | p in pcrs[..] :: p.quoteVerified
  {
    var k := 0;
    while k < pcrs.Length
      invariant 0 <= k <= pcrs.Length
      invariant forall p | p in pcrs[..k] :: p.quoteVerified
    {
      if !pcrs[k].quoteVerified {
        assert pcrs[k] in pcrs[..];
        return false;
      }
      assert pcrs[..k + 1] == pcrs[..k] + [pcrs[k]];
      k := k + 1;
    }
    assert pcrs[..k] == pcrs[..];
    ok := true;
  }

  /**
   Succeeds exactly when the quotes are acceptable, and flags exactly the PCRs covered by
   those that verified, in whatever order TPM 1.2 quotes leave them.
   */
  method VerifyAll(lib: Library, ak: AKPublic, quotes: seq<Quote>, pcrs: array<PCR>, nonce: bytes)
    returns (ok: bool, ghost arrangements: seq<seq<PCR>>)
    modifies pcrs
    ensures Tried(lib, ak, quotes, nonce, old(pcrs[..]), arrangements)
    ensures ok <==> Accepted(lib, ak, quotes, nonce, old(pcrs[..]), arrangements)
    ensures multiset(pcrs[..]) ==
            multiset(FlaggedBy(lib, quotes[..Verified(lib, ak, quotes, nonce, arrangements)], old(pcrs[..])))
    ensures ok ==> forall p | p in pcrs[..] :: p.quoteVerified
  {
    assert quotes[..0] == [];
    if |quotes| == 0 || |nonce| == 0 {
      return false, [];
    }
    ghost var before := pcrs[..];
    ok, arrangements := VerifyEach(lib, ak, quotes, pcrs, nonce);
    if !ok {
      return;
    }
    assert quotes[..|quotes|] == quotes;
    AllFlagged(lib, quotes, before, pcrs[..]);
    ok := EachFlagged(pcrs);
  }

  // ----- TPM 2.0 quotes, which leave the slice in its order -----

  lemma {:induction false} SameLastDigest(a: seq<PCR>, b: seq<PCR>, alg: CryptoHash, index: int)
    requires AllBare(a) == AllBare(b)
    ensures LastDigest(a, alg, index) == LastDigest(b, alg, index)
  {
    assert |a| == |AllBare(a)| == |AllBare(b)| == |b|;
    if a == [] {
    } else {
      var n := |a| - 1;
      assert AllBare(a[..n]) == AllBare(a)[..n] && AllBare(b[..n]) == AllBare(b)[..n];
      assert AllBare(a)[n] == Bare(a[n]) && AllBare(b)[n] == Bare(b[n]);
      SameLastDigest(a[..n], b[..n], alg, index);
    }
  }

  lemma {:induction false} SameSelected(a: seq<PCR>, b: seq<PCR>, alg: CryptoHash, selection: seq<int>)
    requires AllBare(a) == AllBare(b)
    ensures Selected(a, alg, selection) == Selected(b, alg, selection)
  {
    if selection == [] {
    } else {
      SameSelected(a, b, alg, selection[..|selection| - 1]);
      SameLastDigest(a, b, alg, selection[|selection| - 1]);
    }
  }

  /** Flags play no part in verification. */
  lemma FlagsDoNotMatter(lib: Library, ak: AKPublic, quote: Quote, a: seq<PCR>, b: seq<PCR>, nonce: bytes)
    requires quote.version != TPM12 && AllBare(a) == AllBare(b)
    ensures Verifies(lib, ak, quote, a, nonce) ==> Verifies(lib, ak, quote, b, nonce)
  {
    if Verifies(lib, ak, quote, a, nonce) {
      var att := lib.decodeAttestation(quote.quote).value;
      SameSelected(a, b, Bank(att), att.pcrs);
      forall i | i in att.pcrs ensures LastDigest(b, Bank(att), i).Some? {
        SameLastDigest(a, b, Bank(att), i);
      }
      forall p | p in b && p.alg == Bank(att) ensures p.index in att.pcrs {
        var k :| 0 <= k < |b| && b[k] == p;
        assert AllBare(a)[k] == Bare(a[k]) && AllBare(b)[k] == Bare(b[k]) && a[k] in a;
      }
    }
  }

  /** Without TPM 1.2 quotes, acceptance is a property of the slice as it was given. */
  lemma AcceptedIff20(lib: Library, ak: AKPublic, quotes: seq<Quote>, nonce: bytes, before: seq<PCR>,
                      arrangements: seq<seq<PCR>>)
    requires Tried(lib, ak, quotes, nonce, before, arrangements)
    requires forall q | q in quotes :: q.version != TPM12
    ensures Accepted(lib, ak, quotes, nonce, before, arrangements) <==>
              && quotes != [] && nonce != []
              && (forall q | q in quotes :: Verifies(lib, ak, q, before, nonce))
              && (forall p | p in before :: p.quoteVerified || CoveredBy(lib, quotes, p))
  {
    forall i | 0 <= i < |arrangements|
      ensures VerifiesAt(lib, ak, quotes, nonce, arrangements, i) <==> Verifies(lib, ak, quotes[i], before, nonce)
    {
      assert ArrangedAt(lib, ak, quotes, nonce, before, arrangements, i) && quotes[i] in quotes;
      FlaggedByBare(lib, quotes[..i], before);
      FlagsDoNotMatter(lib, ak, quotes[i], arrangements[i], before, nonce);
      FlagsDoNotMatter(lib, ak, quotes[i], before, arrangements[i], nonce);
    }
    if nonce != [] && forall q | q in quotes :: Verifies(lib, ak, q, before, nonce) {
      assert forall i | 0 <= i < |quotes| :: quotes[i] in quotes;
    }
  }

  lemma InEntries(pcrs: seq<PCR>, p: PCR)
    ensures Bare(p) in Entries(pcrs) <==> exists x | x in pcrs :: Bare(x) == Bare(p)
  {
    assert Bare(p) in Entries(pcrs) <==> Bare(p) in AllBare(pcrs);
    if x :| x in pcrs && Bare(x) == Bare(p) {
      var k :| 0 <= k < |pcrs| && pcrs[k] == x;
      assert AllBare(pcrs)[k] == Bare(p);
    }
  }

  lemma SameEntry(a: seq<PCR>, b: seq<PCR>, p: PCR) returns (q: PCR)
    requires Entries(a) == Entries(b) && p in a
    ensures q in b && Bare(q) == Bare(p)
  {
    InEntries(a, p);
    InEntries(b, p);
    q :| q in b && Bare(q) == Bare(p);
  }

  lemma BareIndices(pcrs: seq<PCR>)
    ensures Mapped(Index, AllBare(pcrs)) == Indices(pcrs)
  {
    forall k | 0 <= k < |pcrs| ensures Mapped(Index, AllBare(pcrs))[k] == pcrs[k].index {
      assert AllBare(pcrs)[k] == Bare(pcrs[k]);
      assert Mapped(Index, AllBare(pcrs))[k] == Index(AllBare(pcrs)[k]);
    }
  }

  lemma SameIndices(a: seq<PCR>, b: seq<PCR>)
    requires Entries(a) == Entries(b)
    ensures |a| == |b| && Elements(Indices(a)) == Elements(Indices(b))
  {
    SameLength(AllBare(a), AllBare(b));
    BareIndices(a);
    BareIndices(b);
    MappedPermutes(Index, AllBare(a), AllBare(b));
    forall k ensures k in Indices(a) <==> k in Indices(b) {
      InPermutation(Indices(a), Indices(b), k);
    }
  }

  lemma SizesPermute(a: seq<PCR>, b: seq<PCR>, alg: CryptoHash, n: nat)
    requires Entries(a) == Entries(b)
    ensures Sized12(a) ==> Sized12(b)
    ensures SizedBank(a, alg, n) ==> SizedBank(b, alg, n)
    ensures OneValueEach(a, alg) ==> OneValueEach(b, alg)
  {
    forall p | p in b ensures exists q | q in a :: Bare(q) == Bare(p) {
      var q := SameEntry(b, a, p);
    }
  }

  // ----- Distinct indices, which leave a sort no choice -----

  lemma {:induction false} SameMask(a: seq<PCR>, b: seq<PCR>)
    requires AllBare(a) == AllBare(b) && (forall p | p in a :: InRange(p)) && (forall p | p in b :: InRange(p))
    ensures Mask(a) == Mask(b)
  {
    assert |a| == |AllBare(a)| == |AllBare(b)| == |b|;
    if a == [] {
    } else {
      var n := |a| - 1;
      assert AllBare(a[..n]) == AllBare(a)[..n] && AllBare(b[..n]) == AllBare(b)[..n];
      assert AllBare(a)[n] == Bare(a[n]) && AllBare(b)[n] == Bare(b[n]);
      SameMask(a[..n], b[..n]);
    }
  }

  lemma {:induction false} SameValues(a: seq<PCR>, b: seq<PCR>)
    requires AllBare(a) == AllBare(b)
    ensures Values(a) == Values(b)
  {
    assert |a| == |AllBare(a)| == |AllBare(b)| == |b|;
    if a == [] {
    } else {
      var n := |a| - 1;
      assert AllBare(a[..n]) == AllBare(a)[..n] && AllBare(b[..n]) == AllBare(b)[..n];
      assert AllBare(a)[n] == Bare(a[n]) && AllBare(b)[n] == Bare(b[n]);
      SameValues(a[..n], b[..n]);
    }
  }

  lemma SameRange(a: seq<PCR>, b: seq<PCR>)
    requires Entries(a) == Entries(b)
    ensures (forall p | p in a :: InRange(p)) ==> forall p | p in b :: InRange(p)
  {
    forall p | p in b ensures exists q | q in a :: Bare(q) == Bare(p) {
      var q := SameEntry(b, a, p);
    }
  }

  lemma BareOrder(pcrs: seq<PCR>)
    ensures SortedBy(pcrs, Index) ==> SortedBy(AllBare(pcrs), Index)
    ensures DistinctBy(pcrs, Index) ==> DistinctBy(AllBare(pcrs), Index)
  {
    assert forall k | 0 <= k < |pcrs| :: AllBare(pcrs)[k] == Bare(pcrs[k]);
  }

  lemma OneOrder(a: seq<PCR>, b: seq<PCR>)
    requires Entries(a) == Entries(b) && DistinctBy(a, Index) && SortedBy(a, Index) && SortedBy(b, Index)
    ensures AllBare(a) == AllBare(b)
  {
    BareOrder(a);
    BareOrder(b);
    SortIsUnique(AllBare(a), AllBare(b), Index);
  }

  /** A TPM 1.2 quote finds the same values in any two sorted arrangements. */
  lemma OrderDoesNotMatter12(lib: Library, ak: AKPublic, quote: Quote, a: seq<PCR>, b: seq<PCR>, nonce: bytes)
    requires quote.version == TPM12 && Entries(a) == Entries(b) && DistinctBy(a, Index) && SortedBy(b, Index)
    ensures Verifies(lib, ak, quote, a, nonce) ==> Verifies(lib, ak, quote, b, nonce)
  {
    if Verifies(lib, ak, quote, a, nonce) {
      OneOrder(a, b);
      SameRange(a, b);
      SameMask(a, b);
      SameValues(a, b);
    }
  }

  lemma LastDigestIs(pcrs: seq<PCR>, alg: CryptoHash, index: int, digest: bytes)
    requires OneValueEach(pcrs, alg)
    ensures LastDigest(pcrs, alg, index) == Some(digest) <==>
              exists p | p in pcrs :: p.alg == alg && p.index == index && p.digest == digest
  {
  }

  lemma LastDigestKept(a: seq<PCR>, b: seq<PCR>, alg: CryptoHash, index: int)
    requires Entries(a) == Entries(b) && OneValueEach(a, alg) && LastDigest(a, alg, index).Some?
    ensures LastDigest(b, alg, index) == LastDigest(a, alg, index)
  {
    var digest := LastDigest(a, alg, index).value;
    LastDigestIs(a, alg, index, digest);
    var p :| p in a && p.alg == alg && p.index == index && p.digest == digest;
    var q := SameEntry(a, b, p);
    SizesPermute(a, b, alg, 0);
    LastDigestIs(b, alg, index, digest);
  }

  lemma LastDigestPermutes(a: seq<PCR>, b: seq<PCR>, alg: CryptoHash, index: int)
    requires Entries(a) == Entries(b) && OneValueEach(a, alg)
    ensures LastDigest(a, alg, index) == LastDigest(b, alg, index)
  {
    SizesPermute(a, b, alg, 0);
    if LastDigest(a, alg, index).Some? {
      LastDigestKept(a, b, alg, index);
    } else if LastDigest(b, alg, index).Some? {
      LastDigestKept(b, a, alg, index);
    }
  }

  lemma {:induction false} SelectedPermutes(a: seq<PCR>, b: seq<PCR>, alg: CryptoHash, selection: seq<int>)
    requires Entries(a) == Entries(b) && OneValueEach(a, alg)
    ensures Selected(a, alg, selection) == Selected(b, alg, selection)
  {
    if selection == [] {
    } else {
      SelectedPermutes(a, b, alg, selection[..|selection| - 1]);
      LastDigestPermutes(a, b, alg, selection[|selection| - 1]);
    }
  }

  /** A TPM 2.0 quote finds the same values in any order. */
  lemma OrderDoesNotMatter20(lib: Library, ak: AKPublic, quote: Quote, a: seq<PCR>, b: seq<PCR>, nonce: bytes)
    requires quote.version == TPM20 && Entries(a) == Entries(b) && DistinctBy(a, Index)
    ensures Verifies(lib, ak, quote, a, nonce) ==> Verifies(lib, ak, quote, b, nonce)
  {
    if Verifies(lib, ak, quote, a, nonce) {
      var att := lib.decodeAttestation(quote.quote).value;
      DistinctIsOneValue(a, Bank(att));
      SelectedPermutes(a, b, Bank(att), att.pcrs);
      forall i | i in att.pcrs ensures LastDigest(b, Bank(att), i).Some? {
        LastDigestPermutes(a, b, Bank(att), i);
      }
      forall p | p in b && p.alg == Bank(att) ensures p.index in att.pcrs {
        var q := SameEntry(b, a, p);
      }
    }
  }

  lemma DistinctIsOneValue(pcrs: seq<PCR>, alg: CryptoHash)
    requires DistinctBy(pcrs, Index)
    ensures OneValueEach(pcrs, alg)
  {
  }

  /** The order in which a quote of this version looks at the given PCRs. */
  function Ordered(quote: Quote, before: seq<PCR>): (r: seq<PCR>)
    ensures multiset(r) == multiset(before)
  {
    if quote.version == TPM12 then InsertionSort(before, Index) else before
  }

  lemma DistinctPermutes(a: seq<PCR>, b: seq<PCR>)
    requires Entries(a) == Entries(b) && DistinctBy(a, Index)
    ensures DistinctBy(b, Index)
  {
    SameIndices(a, b);
    DistinctIndices(a);
    DistinctIndices(b);
  }

  lemma ArrangementIsNoMatter(lib: Library, ak: AKPublic, quotes: seq<Quote>, nonce: bytes, before: seq<PCR>,
                              arrangements: seq<seq<PCR>>, i: nat)
    requires i < |quotes| && i < |arrangements|
    requires ArrangedAt(lib, ak, quotes, nonce, before, arrangements, i)
    requires DistinctBy(before, Index)
    ensures VerifiesAt(lib, ak, quotes, nonce, arrangements, i) <==>
              Verifies(lib, ak, quotes[i], Ordered(quotes[i], before), nonce)
  {
    var a, b, q := arrangements[i], Ordered(quotes[i], before), quotes[i];
    FlaggedByBare(lib, quotes[..i], before);
    MappedPermutes(Bare, a, FlaggedBy(lib, quotes[..i], before));
    MappedPermutes(Bare, b, before);
    DistinctPermutes(before, a);
    DistinctPermutes(before, b);
    match q.version
    case TPM12 =>
      if Signed12(lib, ak, q, nonce) {
        OrderDoesNotMatter12(lib, ak, q, a, b, nonce);
        OrderDoesNotMatter12(lib, ak, q, b, a, nonce);
      }
    case TPM20 =>
      OrderDoesNotMatter20(lib, ak, q, a, b, nonce);
      OrderDoesNotMatter20(lib, ak, q, b, a, nonce);
    case OtherVersion =>
  }

  /** With distinct indices acceptance is a property of the slice as it was given, for quotes of either version. */
  lemma AcceptedIff(lib: Library, ak: AKPublic, quotes: seq<Quote>, nonce: bytes, before: seq<PCR>,
                    arrangements: seq<seq<PCR>>)
    requires Tried(lib, ak, quotes, nonce, before, arrangements)
    requires DistinctBy(before, Index)
    ensures Accepted(lib, ak, quotes, nonce, before, arrangements) <==>
              && quotes != [] && nonce != []
              && (forall q | q in quotes :: Verifies(lib, ak, q, Ordered(q, before), nonce))
              && (forall p | p in before :: p.quoteVerified || CoveredBy(lib, quotes, p))
  {
    forall i | 0 <= i < |arrangements|
      ensures VerifiesAt(lib, ak, quotes, nonce, arrangements, i) <==>
                Verifies(lib, ak, quotes[i], Ordered(quotes[i], before), nonce)
    {
      ArrangementIsNoMatter(lib, ak, quotes, nonce, before, arrangements, i);
    }
    if nonce != [] && forall q | q in quotes :: Verifies(lib, ak, q, Ordered(q, before), nonce) {
      assert forall i | 0 <= i < |quotes| :: quotes[i] in quotes;
    }
  }

  // ----- What a flag is worth -----

  /** The registers held the PCR's value, or what was hashed for the two collides. */
  predicate HeldOrCollision(lib: Library, ak: AKPublic, quote: Quote, registers: seq<PCR>, arranged: seq<PCR>,
                            nonce: bytes, p: PCR)
    requires Verifies(lib, ak, quote, registers, nonce) && Verifies(lib, ak, quote, arranged, nonce)
  {
    var x, y := HashedValues(lib, ak, quote, arranged, nonce), HashedValues(lib, ak, quote, registers, nonce);
    if x == y then Held(lib, quote, registers, p) else lib.hash(HashOf(ak, quote), x) == lib.hash(HashOf(ak, quote), y)
  }

  /**
   A quote that verified over these PCRs, p among them, covers p; when the provided PCRs are
   sound, p has the value of the registers the quote was made of.
   */
  ghost predicate Vouches(lib: Library, ak: AKPublic, quote: Quote, provided: seq<PCR>, arranged: seq<PCR>,
                          nonce: bytes, p: PCR) {
    && Verifies(lib, ak, quote, arranged, nonce)
    && Covers(lib, quote, p)
    && Bare(p) in AllBare(arranged)
    && Entries(arranged) == Entries(provided)
    && (Sound(lib, quote, provided) ==>
          forall registers | Verifies(lib, ak, quote, registers, nonce) && Sound(lib, quote, registers) ::
            HeldOrCollision(lib, ak, quote, registers, arranged, nonce, p))
  }

  /** The flag was there before, or one of the quotes vouches for the PCR. */
  ghost predicate Backed(lib: Library, ak: AKPublic, quotes: seq<Quote>, nonce: bytes, before: seq<PCR>,
                         arrangements: seq<seq<PCR>>, p: PCR)
    requires |arrangements| == |quotes|
  {
    || p in before
    || exists i | 0 <= i < |quotes| :: Vouches(lib, ak, quotes[i], before, arrangements[i], nonce, p)
  }

  /** Soundness is a property of the PCRs, whatever their order and flags. */
  lemma SoundPermutes(lib: Library, quote: Quote, a: seq<PCR>, b: seq<PCR>)
    requires Entries(a) == Entries(b)
    ensures Sound(lib, quote, a) ==> Sound(lib, quote, b)
  {
    SameIndices(a, b);
    DistinctIndices(a);
    DistinctIndices(b);
    if quote.version == TPM20 && lib.decodeAttestation(quote.quote).Some? {
      var alg := Bank(lib.decodeAttestation(quote.quote).value);
      SizesPermute(a, b, alg, if Supported(alg) then Size(alg) else 0);
    } else {
      SizesPermute(a, b, SHA1, 0);
    }
  }

  lemma SoundVouches(lib: Library, ak: AKPublic, quote: Quote, provided: seq<PCR>, arranged: seq<PCR>,
                     nonce: bytes, p: PCR)
    requires Verifies(lib, ak, quote, arranged, nonce) && Covers(lib, quote, p) && Bare(p) in AllBare(arranged)
    requires Entries(arranged) == Entries(provided)
    ensures Vouches(lib, ak, quote, provided, arranged, nonce, p)
  {
    var k :| 0 <= k < |arranged| && AllBare(arranged)[k] == Bare(p);
    assert arranged[k] in arranged && Bare(arranged[k]) == Bare(p) && Covers(lib, quote, arranged[k]);
    if Sound(lib, quote, provided) {
      SoundPermutes(lib, quote, provided, arranged);
      forall registers | Verifies(lib, ak, quote, registers, nonce) && Sound(lib, quote, registers)
        ensures HeldOrCollision(lib, ak, quote, registers, arranged, nonce, p)
      {
        CoveredValuesIff(lib, ak, quote, registers, arranged, nonce);
        assert Held(lib, quote, registers, arranged[k]) <==> Held(lib, quote, registers, p);
      }
    }
  }

  /** After accepted quotes every PCR that was not flagged before is vouched for. */
  lemma AcceptedBacks(lib: Library, ak: AKPublic, quotes: seq<Quote>, nonce: bytes, before: seq<PCR>,
                      arrangements: seq<seq<PCR>>, after: seq<PCR>, p: PCR)
    requires Tried(lib, ak, quotes, nonce, before, arrangements)
    requires Accepted(lib, ak, quotes, nonce, before, arrangements)
    requires multiset(after) == multiset(FlaggedBy(lib, quotes, before)) && p in after
    ensures Backed(lib, ak, quotes, nonce, before, arrangements, p)
  {
    InPermutation(after, FlaggedBy(lib, quotes, before), p);
    var k :| 0 <= k < |before| && FlaggedBy(lib, quotes, before)[k] == p;
    FlaggedByAt(lib, quotes, before, k);
    assert before[k] in before;
    if p != before[k] {
      var q :| q in quotes && Covers(lib, q, before[k]);
      var i :| 0 <= i < |quotes| && quotes[i] == q;
      assert VerifiesAt(lib, ak, quotes, nonce, arrangements, i);
      EntryRemains(lib, ak, quotes, nonce, before, arrangements, i, k);
      SoundVouches(lib, ak, quotes[i], before, arrangements[i], nonce, p);
    }
  }

  lemma EntryRemains(lib: Library, ak: AKPublic, quotes: seq<Quote>, nonce: bytes, before: seq<PCR>,
                     arrangements: seq<seq<PCR>>, i: nat, k: nat)
    requires i < |quotes| && i < |arrangements| && k < |before|
    requires ArrangedAt(lib, ak, quotes, nonce, before, arrangements, i)
    ensures Bare(before[k]) in AllBare(arrangements[i])
    ensures Entries(arrangements[i]) == Entries(before)
  {
    var flagged := FlaggedBy(lib, quotes[..i], before);
    FlaggedByBare(lib, quotes[..i], before);
    MappedPermutes(Bare, arrangements[i], flagged);
    assert AllBare(flagged)[k] == AllBare(before)[k] == Bare(before[k]);
    InPermutation(AllBare(arrangements[i]), AllBare(flagged), Bare(before[k]));
  }

  // ----- Quotes and event log together -----

  lemma {:induction false} MatchedAt(raw: seq<RawEvent>, banks: map<int, CryptoHash>, index: int)
    requires index in banks
    ensures EventsAt(Matched(raw, banks), index) == EventsFor(raw, index, banks[index])
  {
    if raw == [] {
    } else {
      var front, e := raw[..|raw| - 1], raw[|raw| - 1];
      MatchedAt(front, banks, index);
      var m := Matched(front, banks);
      if e.index in banks && e.typ != EV_NO_ACTION {
        EventsAtMore(m, Observed(e, banks[e.index]), index);
      } else {
        assert Matched(raw, banks) == m + [] == m;
      }
    }
  }

  lemma {:induction false} MatchedIndex(raw: seq<RawEvent>, banks: map<int, CryptoHash>, e: Event)
    requires e in Matched(raw, banks)
    ensures e.index in banks
    ensures EventsFor(raw, e.index, banks[e.index]) != []
  {
    var front := raw[..|raw| - 1];
    if e !in Matched(front, banks) {
    } else {
      MatchedIndex(front, banks, e);
    }
  }

  /** The digest of p is the hash chain of exactly the events at its index, from some starting locality. */
  ghost predicate Explains(hash: HashFunction, events: seq<Event>, p: PCR) {
    Supported(p.alg) && exists locality: byte ::
      p.digest == Chain(hash, p.alg, Initial(p.alg, locality), Digests(EventsAt(events, p.index)))
  }

  /** Each index among verified events is explained, in order and without gaps, by a provided PCR. */
  lemma VerifiedEventsExplain(hash: HashFunction, raw: seq<RawEvent>, pcrs: seq<PCR>, e: Event)
    requires Failing(hash, raw, pcrs) == {}
    requires e in VerifiedEvents(hash, raw, pcrs)
    ensures exists p | p in pcrs :: p.index == e.index && Explains(hash, VerifiedEvents(hash, raw, pcrs), p)
  {
    var banks := Banks(hash, raw, pcrs);
    MatchedIndex(raw, banks, e);
    MatchedAt(raw, banks, e.index);
    FirstBankReplays(hash, raw, pcrs, e.index);
    var p := FirstBank(hash, raw, pcrs, e.index).value;
    assert p.digest == Chain(hash, p.alg, Initial(p.alg, StartLocality(raw, p.index)),
                             Digests(EventsAt(VerifiedEvents(hash, raw, pcrs), p.index)));
    assert Explains(hash, VerifiedEvents(hash, raw, pcrs), p);
  }

  datatype Authenticity = Authentic(events: seq<Event>) | QuotesRefused | LogRefused | LogPanicked

  /** The event's index has a flagged, backed PCR whose digest is the hash chain of the events there. */
  ghost predicate Grounded(lib: Library, ak: AKPublic, quotes: seq<Quote>, nonce: bytes, before: seq<PCR>,
                           arrangements: seq<seq<PCR>>, after: seq<PCR>, events: seq<Event>, e: Event)
    requires |arrangements| == |quotes|
  {
    exists p | p in after ::
      && p.index == e.index && p.quoteVerified
      && Explains(lib.hash, events, p)
      && Backed(lib, ak, quotes, nonce, before, arrangements, p)
  }

  /**
   The documented procedure: all quotes verified, then the log against the same PCRs. It
   succeeds exactly when the quotes are acceptable and the log verifies, returns the log's
   verified events, and grounds each of them in a PCR that a quote vouches for.
   */
  method AuthenticEvents(lib: Library, ak: AKPublic, quotes: seq<Quote>, log: EventLog, pcrs: array<PCR>, nonce: bytes)
    returns (r: Authenticity, ghost arrangements: seq<seq<PCR>>)
    requires WellFormed(log.Contents())
    modifies pcrs
    ensures log.Contents() == old(log.Contents())
    ensures Tried(lib, ak, quotes, nonce, old(pcrs[..]), arrangements)
    ensures r != QuotesRefused <==> Accepted(lib, ak, quotes, nonce, old(pcrs[..]), arrangements)
    ensures multiset(pcrs[..]) ==
            multiset(FlaggedBy(lib, quotes[..Verified(lib, ak, quotes, nonce, arrangements)], old(pcrs[..])))
    ensures r != QuotesRefused ==> (r == LogPanicked <==> AnyPanics(log.rawEvents, pcrs[..]))
    ensures r != QuotesRefused ==>
              (r.Authentic? <==> r != LogPanicked && Effective(lib.hash, log.Contents(), pcrs[..]).Some?)
    ensures r.Authentic? ==>
              r.events == VerifiedEvents(lib.hash, Effective(lib.hash, log.Contents(), pcrs[..]).value.rawEvents, pcrs[..])
    ensures r.Authentic? ==> forall p | p in pcrs[..] :: p.quoteVerified
    ensures r.Authentic? ==> forall e | e in r.events ::
              Grounded(lib, ak, quotes, nonce, old(pcrs[..]), arrangements, pcrs[..], r.events, e)
  {
    ghost var before := pcrs[..];
    var ok;
    ok, arrangements := VerifyAll(lib, ak, quotes, pcrs, nonce);
    if !ok {
      return QuotesRefused, arrangements;
    }
    assert quotes[..Verified(lib, ak, quotes, nonce, arrangements)] == quotes;
    var verdict := log.Verify(lib.hash, pcrs[..]);
    if verdict == Panicked {
      return LogPanicked, arrangements;
    }
    if verdict.ReplayError? {
      return LogRefused, arrangements;
    }
    VerifiesIff(lib.hash, log.Contents(), pcrs[..]);
    ghost var effective := Effective(lib.hash, log.Contents(), pcrs[..]).value.rawEvents;
    forall e | e in verdict.events
      ensures Grounded(lib, ak, quotes, nonce, before, arrangements, pcrs[..], verdict.events, e)
    {
      VerifiedEventsExplain(lib.hash, effective, pcrs[..], e);
      var p :| p in pcrs[..] && p.index == e.index && Explains(lib.hash, verdict.events, p);
      AcceptedBacks(lib, ak, quotes, nonce, before, arrangements, pcrs[..], p);
    }
    r := Authentic(verdict.events);
  }
}
