/**
 What an accepted quote says of the values it was checked against (attest/attest.go:
 AKPublic.Verify; attest/eventlog.go: validate12Quote, validate20Quote).

 A quote signs a hash of register values put one behind the other. The registers a TPM
 signed are a slice of PCRs that the quote accepts as well, so two accepted slices are
 compared: the one a caller provides and the registers.
 */
module QuoteBinding {
  import opened Bytes
  import opened Hashing
  import opened Replay
  import opened Sorting
  import opened Merge
  import opened Quotes

  /** The quote is authentic and signs the values of the PCRs it covers. */
  predicate Verifies(lib: Library, ak: AKPublic, quote: Quote, pcrs: seq<PCR>, nonce: bytes) {
    match quote.version
    case TPM12 => Signed12(lib, ak, quote, nonce) && SortedBy(pcrs, Index) && Matches12(lib, quote, pcrs)
    case TPM20 =>
      Signed20(lib, ak, quote, nonce) && Matches20(lib, ak, lib.decodeAttestation(quote.quote).value, pcrs)
    case OtherVersion => false
  }

  /** A TPM 1.2 quote covers every provided PCR, a TPM 2.0 quote those of one bank. */
  predicate Covers(lib: Library, quote: Quote, p: PCR) {
    match quote.version
    case TPM12 => true
    case TPM20 =>
      var att := lib.decodeAttestation(quote.quote);
      att.Some? && p.alg == Bank(att.value)
    case OtherVersion => false
  }

  // ----- TPM 2.0: the values of the selected PCRs, one behind the other -----

  /** No index of the bank has two values. */
  predicate OneValueEach(pcrs: seq<PCR>, alg: CryptoHash) {
    forall p, q | p in pcrs && q in pcrs && p.alg == alg == q.alg && p.index == q.index :: p.digest == q.digest
  }

  predicate SizedBank(pcrs: seq<PCR>, alg: CryptoHash, n: nat) {
    forall p | p in pcrs && p.alg == alg :: |p.digest| == n
  }

  /** The values hashed for a bank are those of all its entries exactly when its entries agree. */
  lemma SignedValuesIff(pcrs: seq<PCR>, alg: CryptoHash)
    ensures (forall p | p in pcrs && p.alg == alg :: LastDigest(pcrs, alg, p.index) == Some(p.digest)) <==>
            OneValueEach(pcrs, alg)
  {
    if OneValueEach(pcrs, alg) {
      forall p | p in pcrs && p.alg == alg ensures LastDigest(pcrs, alg, p.index) == Some(p.digest) {
        LastDigestProvided(pcrs, alg, p.index);
      }
    } else {
      var p, q :| p in pcrs && q in pcrs && p.alg == alg == q.alg && p.index == q.index && p.digest != q.digest;
      assert LastDigest(pcrs, alg, p.index) != Some(p.digest) || LastDigest(pcrs, alg, q.index) != Some(q.digest);
    }
  }

  /** Every selected PCR has a value, of n bytes. */
  predicate Fills(pcrs: seq<PCR>, alg: CryptoHash, selection: seq<int>, n: nat) {
    forall i | i in selection :: LastDigest(pcrs, alg, i).Some? && |LastDigest(pcrs, alg, i).value| == n
  }

  lemma SameTail(a: bytes, b: bytes, c: bytes, d: bytes)
    requires |b| == |d|
    ensures a + b == c + d <==> a == c && b == d
  {
    if a + b == c + d {
      assert |a| == |c|;
      SameSplit(a, b, c, d);
    }
  }

  /** Values of one length can be told apart in what is hashed. */
  lemma {:induction false} SelectedAgree(a: seq<PCR>, b: seq<PCR>, alg: CryptoHash, selection: seq<int>, n: nat)
    requires Fills(a, alg, selection, n) && Fills(b, alg, selection, n)
    ensures Selected(a, alg, selection) == Selected(b, alg, selection) <==>
            forall i | i in selection :: LastDigest(a, alg, i) == LastDigest(b, alg, i)
  {
    if selection == [] {
    } else {
      var front, last := selection[..|selection| - 1], selection[|selection| - 1];
      assert selection == front + [last] && last in selection;
      assert forall i :: i in selection <==> i in front || i == last;
      SelectedAgree(a, b, alg, front, n);
      SameTail(Selected(a, alg, front), LastDigest(a, alg, last).value,
               Selected(b, alg, front), LastDigest(b, alg, last).value);
    }
  }

  lemma SizedFills(lib: Library, ak: AKPublic, att: Attestation, pcrs: seq<PCR>, n: nat)
    requires Matches20(lib, ak, att, pcrs) && SizedBank(pcrs, Bank(att), n)
    ensures Fills(pcrs, Bank(att), att.pcrs, n)
  {
    forall i | i in att.pcrs ensures |LastDigest(pcrs, Bank(att), i).value| == n {
      LastDigestProvided(pcrs, Bank(att), i);
    }
  }

  /** The bank's entries hold what the registers held. */
  predicate HoldsBank(registers: seq<PCR>, pcrs: seq<PCR>, alg: CryptoHash) {
    forall p | p in pcrs && p.alg == alg :: LastDigest(registers, alg, p.index) == Some(p.digest)
  }

  lemma HoldingIsSound(registers: seq<PCR>, pcrs: seq<PCR>, alg: CryptoHash, n: nat)
    requires SizedBank(registers, alg, n) && HoldsBank(registers, pcrs, alg)
    ensures OneValueEach(pcrs, alg) && SizedBank(pcrs, alg, n)
  {
    forall p | p in pcrs && p.alg == alg ensures |p.digest| == n {
      LastDigestProvided(registers, alg, p.index);
    }
  }

  lemma SoundIsHolding(lib: Library, ak: AKPublic, att: Attestation, registers: seq<PCR>, pcrs: seq<PCR>, n: nat)
    requires Matches20(lib, ak, att, registers) && SizedBank(registers, Bank(att), n)
    requires Matches20(lib, ak, att, pcrs) && SizedBank(pcrs, Bank(att), n) && OneValueEach(pcrs, Bank(att))
    requires Selected(pcrs, Bank(att), att.pcrs) == Selected(registers, Bank(att), att.pcrs)
    ensures HoldsBank(registers, pcrs, Bank(att))
  {
    SizedFills(lib, ak, att, pcrs, n);
    SizedFills(lib, ak, att, registers, n);
    SelectedAgree(pcrs, registers, Bank(att), att.pcrs, n);
    SignedValuesIff(pcrs, Bank(att));
  }

  /**
   A TPM 2.0 quote vouches for every PCR it flags exactly when no index of the bank has two
   values and all have the length of the registers, unless two explicit inputs collide.
   */
  lemma FlaggedValuesIff20(lib: Library, ak: AKPublic, att: Attestation, registers: seq<PCR>, pcrs: seq<PCR>, n: nat)
    requires Matches20(lib, ak, att, registers) && SizedBank(registers, Bank(att), n)
    requires Matches20(lib, ak, att, pcrs)
    ensures var x, y := Selected(pcrs, Bank(att), att.pcrs), Selected(registers, Bank(att), att.pcrs);
            if x == y then
              HoldsBank(registers, pcrs, Bank(att)) <==> OneValueEach(pcrs, Bank(att)) && SizedBank(pcrs, Bank(att), n)
            else lib.hash(ak.hash, x) == lib.hash(ak.hash, y)
  {
    if Selected(pcrs, Bank(att), att.pcrs) == Selected(registers, Bank(att), att.pcrs) {
      if HoldsBank(registers, pcrs, Bank(att)) {
        HoldingIsSound(registers, pcrs, Bank(att), n);
      }
      if OneValueEach(pcrs, Bank(att)) && SizedBank(pcrs, Bank(att), n) {
        SoundIsHolding(lib, ak, att, registers, pcrs, n);
      }
    }
  }

  // ----- TPM 1.2: the values of all PCRs, in index order -----

  function Indices(pcrs: seq<PCR>): (r: seq<int>)
    ensures |r| == |pcrs|
  {
    seq(|pcrs|, i requires 0 <= i < |pcrs| => pcrs[i].index)
  }

  /** SHA1 values. */
  predicate Sized12(pcrs: seq<PCR>) {
    forall p | p in pcrs :: |p.digest| == 20
  }

  /** One SHA1 value for each index. */
  predicate Sound12(pcrs: seq<PCR>) {
    DistinctBy(pcrs, Index) && Sized12(pcrs)
  }

  predicate Holds12(registers: seq<PCR>, p: PCR) {
    exists r | r in registers :: r.index == p.index && r.digest == p.digest
  }

  lemma {:induction false} DistinctCount(s: seq<int>)
    ensures |Elements(s)| <= |s|
    ensures |Elements(s)| == |s| <==> NoDuplicates(s)
  {
    if s == [] {
    } else {
      var rest := s[1..];
      DistinctCount(rest);
      assert s == [s[0]] + rest;
      assert Elements(s) == {s[0]} + Elements(rest);
      assert s[0] in rest ==> Elements(s) == Elements(rest);
      if s[0] !in rest {
        assert |Elements(s)| == 1 + |Elements(rest)|;
      }
    }
  }

  lemma {:induction false} ValuesLength(pcrs: seq<PCR>)
    requires Sized12(pcrs)
    ensures |Values(pcrs)| == 20 * |pcrs|
  {
    if pcrs == [] {
    } else {
      ValuesLength(pcrs[..|pcrs| - 1]);
    }
  }

  lemma {:induction false} ValuesAgree(a: seq<PCR>, b: seq<PCR>)
    requires |a| == |b| && Sized12(a) && Sized12(b) && Values(a) == Values(b)
    ensures forall i | 0 <= i < |a| :: a[i].digest == b[i].digest
  {
    if a == [] {
    } else {
      var x, y := a[..|a| - 1], b[..|b| - 1];
      SameTail(Values(x), a[|a| - 1].digest, Values(y), b[|b| - 1].digest);
      ValuesAgree(x, y);
    }
  }

  lemma SameMaskSameIndices(a: seq<PCR>, b: seq<PCR>)
    requires (forall p | p in a :: InRange(p)) && (forall p | p in b :: InRange(p))
    requires Mask(a) == Mask(b)
    ensures Elements(Indices(a)) == Elements(Indices(b))
  {
    forall k ensures k in Indices(a) <==> k in Indices(b) {
      InIndices(a, k);
      InIndices(b, k);
      if 0 <= k < 24 {
        MaskBits(a, k);
        MaskBits(b, k);
      }
    }
  }

  lemma InIndices(pcrs: seq<PCR>, k: int)
    ensures k in Indices(pcrs) <==> exists p | p in pcrs :: p.index == k
  {
    if p :| p in pcrs && p.index == k {
      var i :| 0 <= i < |pcrs| && pcrs[i] == p;
      assert Indices(pcrs)[i] == k;
    }
  }

  /** The composite determines bitmap and values. */
  lemma CompositeParts(m1: seq<bv8>, v1: bytes, m2: seq<bv8>, v2: bytes)
    requires |m1| == 3 && |m2| == 3 && Composite(m1, v1) == Composite(m2, v2)
    ensures m1 == m2 && v1 == v2
  {
    var x, y := Composite(m1, v1), Composite(m2, v2);
    assert x[9..] == v1 && y[9..] == v2;
    forall i | 0 <= i < 3 ensures m1[i] == m2[i] {
      assert x[2 + i] == m1[i] as int && y[2 + i] == m2[i] as int;
      SameByte(m1[i], m2[i]);
    }
  }

  lemma SameByte(b: bv8, c: bv8)
    requires b as int == c as int
    ensures b == c
  {
  }

  lemma DistinctIndices(pcrs: seq<PCR>)
    ensures DistinctBy(pcrs, Index) <==> NoDuplicates(Indices(pcrs))
    ensures DistinctBy(pcrs, Index) <==> |Elements(Indices(pcrs))| == |pcrs|
  {
    DistinctCount(Indices(pcrs));
    assert forall i | 0 <= i < |pcrs| :: Index(pcrs[i]) == Indices(pcrs)[i];
  }

  /** Sorted slices over the same distinct indices name them in the same order. */
  lemma SameOrder(a: seq<PCR>, b: seq<PCR>)
    requires SortedBy(a, Index) && SortedBy(b, Index) && DistinctBy(a, Index) && DistinctBy(b, Index)
    requires Elements(Indices(a)) == Elements(Indices(b))
    ensures Indices(a) == Indices(b)
  {
    DistinctIndices(a);
    DistinctIndices(b);
    SameElements(Indices(a), Indices(b));
    SortIsUnique(Indices(a), Indices(b), i => i);
  }

  /** Sized values over as many indices leave no room for an index given twice. */
  lemma SizedIsDistinct(registers: seq<PCR>, pcrs: seq<PCR>)
    requires Sound12(registers) && Sized12(pcrs)
    requires Elements(Indices(pcrs)) == Elements(Indices(registers)) && Values(pcrs) == Values(registers)
    ensures DistinctBy(pcrs, Index)
  {
    ValuesLength(pcrs);
    ValuesLength(registers);
    DistinctIndices(pcrs);
    DistinctIndices(registers);
  }

  lemma SoundHolds12(registers: seq<PCR>, pcrs: seq<PCR>)
    requires Sound12(registers) && SortedBy(registers, Index) && Sound12(pcrs) && SortedBy(pcrs, Index)
    requires Elements(Indices(pcrs)) == Elements(Indices(registers)) && Values(pcrs) == Values(registers)
    ensures forall p | p in pcrs :: Holds12(registers, p)
  {
    SameOrder(pcrs, registers);
    assert |Indices(pcrs)| == |Indices(registers)|;
    ValuesAgree(pcrs, registers);
    forall p | p in pcrs ensures Holds12(registers, p) {
      var i :| 0 <= i < |pcrs| && pcrs[i] == p;
      assert Indices(pcrs)[i] == Indices(registers)[i];
      assert registers[i] in registers;
    }
  }

  /**
   A TPM 1.2 quote vouches for every PCR it flags exactly when there is one SHA1 value for
   each index, unless two explicit inputs collide.
   */
  lemma FlaggedValuesIff12(lib: Library, quote: Quote, registers: seq<PCR>, pcrs: seq<PCR>)
    requires Matches12(lib, quote, registers) && SortedBy(registers, Index) && Sound12(registers)
    requires Matches12(lib, quote, pcrs) && SortedBy(pcrs, Index)
    ensures var x, y := Composite(Mask(pcrs), Values(pcrs)), Composite(Mask(registers), Values(registers));
            if x == y then (forall p | p in pcrs :: Holds12(registers, p)) <==> Sound12(pcrs)
            else lib.hash(SHA1, x) == lib.hash(SHA1, y)
  {
    if Composite(Mask(pcrs), Values(pcrs)) == Composite(Mask(registers), Values(registers)) {
      CompositeParts(Mask(pcrs), Values(pcrs), Mask(registers), Values(registers));
      SameMaskSameIndices(pcrs, registers);
      if Sized12(pcrs) {
        SizedIsDistinct(registers, pcrs);
        SoundHolds12(registers, pcrs);
      }
    }
  }

  // ----- Quotes of either version -----

  /** One value of the right length for each index that the quote covers. */
  predicate Sound(lib: Library, quote: Quote, pcrs: seq<PCR>) {
    match quote.version
    case TPM12 => Sound12(pcrs)
    case TPM20 =>
      var att := lib.decodeAttestation(quote.quote);
      && att.Some? && Supported(Bank(att.value))
      && OneValueEach(pcrs, Bank(att.value)) && SizedBank(pcrs, Bank(att.value), Size(Bank(att.value)))
    case OtherVersion => false
  }

  /** What is hashed for the comparison with a quote that verifies. */
  function HashedValues(lib: Library, ak: AKPublic, quote: Quote, pcrs: seq<PCR>, nonce: bytes): bytes
    requires Verifies(lib, ak, quote, pcrs, nonce)
  {
    match quote.version
    case TPM12 => Composite(Mask(pcrs), Values(pcrs))
    case TPM20 =>
      var att := lib.decodeAttestation(quote.quote).value;
      Selected(pcrs, Bank(att), att.pcrs)
  }

  function HashOf(ak: AKPublic, quote: Quote): CryptoHash {
    if quote.version == TPM12 then SHA1 else ak.hash
  }

  /** Registers that the quote covers held this value. */
  predicate Held(lib: Library, quote: Quote, registers: seq<PCR>, p: PCR) {
    exists r | r in registers :: Covers(lib, quote, r) && r.index == p.index && r.digest == p.digest
  }

  lemma HeldInBank(lib: Library, quote: Quote, registers: seq<PCR>, p: PCR)
    requires quote.version == TPM20 && lib.decodeAttestation(quote.quote).Some?
    requires OneValueEach(registers, Bank(lib.decodeAttestation(quote.quote).value))
    ensures Held(lib, quote, registers, p) <==>
              LastDigest(registers, Bank(lib.decodeAttestation(quote.quote).value), p.index) == Some(p.digest)
  {
  }

  /**
   When a quote verifies over the registers it was made of and over other values, those it
   covers are the registers' own exactly when they are sound; else two explicit inputs collide.
   */
  lemma CoveredValuesIff(lib: Library, ak: AKPublic, quote: Quote, registers: seq<PCR>, pcrs: seq<PCR>, nonce: bytes)
    requires Verifies(lib, ak, quote, registers, nonce) && Sound(lib, quote, registers)
    requires Verifies(lib, ak, quote, pcrs, nonce)
    ensures var x := HashedValues(lib, ak, quote, pcrs, nonce);
            var y := HashedValues(lib, ak, quote, registers, nonce);
            if x == y then
              (forall p | p in pcrs && Covers(lib, quote, p) :: Held(lib, quote, registers, p)) <==> Sound(lib, quote, pcrs)
            else lib.hash(HashOf(ak, quote), x) == lib.hash(HashOf(ak, quote), y)
  {
    match quote.version
    case TPM12 =>
      FlaggedValuesIff12(lib, quote, registers, pcrs);
      assert forall p | p in pcrs :: Held(lib, quote, registers, p) <==> Holds12(registers, p);
    case TPM20 =>
      var att := lib.decodeAttestation(quote.quote).value;
      FlaggedValuesIff20(lib, ak, att, registers, pcrs, Size(Bank(att)));
      forall p | p in pcrs && p.alg == Bank(att)
        ensures Held(lib, quote, registers, p) <==> LastDigest(registers, Bank(att), p.index) == Some(p.digest)
      {
        HeldInBank(lib, quote, registers, p);
      }
  }

  /** Two sound slices that one quote accepts agree on index and value, or c is a collision. */
  lemma QuoteBindsValues(lib: Library, ak: AKPublic, quote: Quote, a: seq<PCR>, b: seq<PCR>, nonce: bytes)
    returns (c: Option<(bytes, bytes)>)
    requires Verifies(lib, ak, quote, a, nonce) && Sound(lib, quote, a)
    requires Verifies(lib, ak, quote, b, nonce) && Sound(lib, quote, b)
    ensures c == None ==> forall p | p in a && Covers(lib, quote, p) :: Held(lib, quote, b, p)
    ensures c == None ==> forall p | p in b && Covers(lib, quote, p) :: Held(lib, quote, a, p)
    ensures c.Some? ==> c.value.0 != c.value.1 &&
                        lib.hash(HashOf(ak, quote), c.value.0) == lib.hash(HashOf(ak, quote), c.value.1)
    ensures c.Some? ==> c.value == (HashedValues(lib, ak, quote, a, nonce), HashedValues(lib, ak, quote, b, nonce))
  {
    CoveredValuesIff(lib, ak, quote, a, b, nonce);
    CoveredValuesIff(lib, ak, quote, b, a, nonce);
    var x, y := HashedValues(lib, ak, quote, a, nonce), HashedValues(lib, ak, quote, b, nonce);
    c := if x == y then None else Some((x, y));
  }

  // ----- Slices that are accepted and do not hold what was signed -----

  /** Two values for one index: any value is flagged beside the one that was signed. */
  lemma SecondValueAccepted(lib: Library, ak: AKPublic, att: Attestation, x: bytes, v: bytes)
    requires Bank(att) == SHA256 && att.pcrs == [0] && lib.hash(ak.hash, v) == att.pcrDigest
    ensures var pcrs := [PCR(0, x, SHA256, false), PCR(0, v, SHA256, false)];
            && Matches20(lib, ak, att, pcrs)
            && FlagBank(pcrs, Bank(att)) == [PCR(0, x, SHA256, true), PCR(0, v, SHA256, true)]
  {
    var p, q := PCR(0, x, SHA256, false), PCR(0, v, SHA256, false);
    assert [p, q][..1] == [p] && [0][..0] == [];
    assert Selected([p, q], SHA256, [0]) == v;
  }

  /** Values of other lengths: PCR 0's value is flagged as PCR 1's, with one value for each index. */
  lemma ShiftedValuesAccepted20(lib: Library, ak: AKPublic, att: Attestation, v0: bytes, v1: bytes, v2: bytes)
    requires Bank(att) == SHA256 && att.pcrs == [0, 1, 2] && lib.hash(ak.hash, v0 + v1 + v2) == att.pcrDigest
    ensures var pcrs := [PCR(0, [], SHA256, false), PCR(1, v0, SHA256, false), PCR(2, v1 + v2, SHA256, false)];
            Matches20(lib, ak, att, pcrs) && OneValueEach(pcrs, SHA256)
  {
    var p, q, r := PCR(0, [], SHA256, false), PCR(1, v0, SHA256, false), PCR(2, v1 + v2, SHA256, false);
    var pcrs := [p, q, r];
    assert pcrs[..2] == [p, q] && [p, q][..1] == [p];
    assert LastDigest([p], SHA256, 0) == Some([]);
    assert LastDigest([p, q], SHA256, 0) == Some([]) && LastDigest([p, q], SHA256, 1) == Some(v0);
    assert LastDigest(pcrs, SHA256, 0) == Some([]) && LastDigest(pcrs, SHA256, 1) == Some(v0);
    assert LastDigest(pcrs, SHA256, 2) == Some(v1 + v2);
    assert [0, 1, 2][..2] == [0, 1] && [0, 1][..1] == [0] && [0][..0] == [];
    assert Selected(pcrs, SHA256, [0]) == [];
    assert Selected(pcrs, SHA256, [0, 1]) == v0;
    assert v0 + (v1 + v2) == v0 + v1 + v2;
  }

  lemma ValuesMore(pcrs: seq<PCR>, p: PCR)
    ensures Values(pcrs + [p]) == Values(pcrs) + p.digest
  {
  }

  lemma MaskMore(pcrs: seq<PCR>, p: PCR)
    requires forall x | x in pcrs + [p] :: InRange(x)
    ensures (forall x | x in pcrs :: InRange(x)) && InRange(p) && Mask(pcrs + [p]) == WithBit(Mask(pcrs), p.index)
  {
  }

  lemma TwiceSetBit(mask: seq<bv8>, i: int)
    requires |mask| == 3 && 0 <= i < 24
    ensures WithBit(WithBit(mask, i), i) == WithBit(mask, i)
  {
  }

  /** The same for TPM 1.2, with no bank giving two values for an index. */
  lemma ShiftedValuesAccepted12(lib: Library, quote: Quote, v0: bytes, v1: bytes)
    requires Matches12(lib, quote, [PCR(0, v0, SHA1, false), PCR(1, v1, SHA1, false)])
    ensures var pcrs := [PCR(0, [], SHA1, false), PCR(1, v0, SHA1, false), PCR(1, v1, SHA256, false)];
            Matches12(lib, quote, pcrs) && SortedBy(pcrs, Index)
  {
    var a, b := PCR(0, v0, SHA1, false), PCR(1, v1, SHA1, false);
    var p, q, r := PCR(0, [], SHA1, false), PCR(1, v0, SHA1, false), PCR(1, v1, SHA256, false);
    ValuesMore([], a);
    ValuesMore([a], b);
    ValuesMore([], p);
    ValuesMore([p], q);
    ValuesMore([p, q], r);
    MaskMore([], a);
    MaskMore([a], b);
    MaskMore([], p);
    MaskMore([p], q);
    MaskMore([p, q], r);
    TwiceSetBit(Mask([p]), 1);
    assert [] + [a] == [a] && [a] + [b] == [a, b] && [] + [p] == [p] && [p] + [q] == [p, q] && [p, q] + [r] == [p, q, r];
    assert [] + v0 == v0 && [] + [] + v0 + v1 == v0 + v1;
  }
}
