/**
 What an accepted quote rests on (attest/eventlog.go: validate12Quote, validate20Quote;
 attest/attest.go: AKPublic.Verify, AKPublic.VerifyAll): the signature, the nonce and the
 bytes that are hashed and compared.
 */
module QuoteMeaning {
  import opened Bytes
  import opened Hashing
  import opened NetworkOrder
  import opened Replay
  import opened Sorting
  import opened Quotes
  import opened QuoteBinding
  import opened Attestation

  // ----- Authenticity and freshness -----

  /** A TPM 2.0 quote is signed by the key, is a quote, and carries the nonce. */
  predicate Genuine20(lib: Library, ak: AKPublic, q: Quote, att: Quotes.Attestation, sig: bytes, nonce: bytes) {
    && lib.decodeSignature(q.signature) == Some(Some(sig))
    && ak.public.RSA? && lib.rsaVerify(ak.public.id, ak.hash, lib.hash(ak.hash, q.quote), sig)
    && lib.decodeAttestation(q.quote) == Some(att) && att.isQuote && att.extraData == nonce
  }

  lemma Genuine20Is(lib: Library, ak: AKPublic, q: Quote, att: Quotes.Attestation, sig: bytes, nonce: bytes)
    requires Genuine20(lib, ak, q, att, sig, nonce)
    ensures Signed20(lib, ak, q, nonce) && lib.decodeAttestation(q.quote).value == att
  {
  }

  lemma GenuineWhenVerified(lib: Library, ak: AKPublic, q: Quote, pcrs: seq<PCR>, nonce: bytes)
    returns (att: Quotes.Attestation, sig: bytes)
    requires q.version == TPM20 && Verifies(lib, ak, q, pcrs, nonce)
    ensures Genuine20(lib, ak, q, att, sig, nonce)
  {
    att, sig := lib.decodeAttestation(q.quote).value, lib.decodeSignature(q.signature).value.value;
  }

  /** A TPM 1.2 quote is signed by the key, says that it is one, and carries the nonce's hash. */
  predicate Genuine12(lib: Library, ak: AKPublic, q: Quote, nonce: bytes) {
    && ak.public.RSA? && lib.rsaVerify(ak.public.id, SHA1, lib.hash(SHA1, q.quote), q.signature)
    && |q.quote| >= 48 && q.quote[4..8] == Ascii("QUOT") && q.quote[28..48] == lib.hash(SHA1, nonce)
  }

  lemma Genuine12Is(lib: Library, ak: AKPublic, q: Quote, nonce: bytes)
    ensures Genuine12(lib, ak, q, nonce) <==> Signed12(lib, ak, q, nonce)
  {
    assert FIXED_QUOTE == Ascii("QUOT");
  }

  /** A quote is good for one nonce: a TPM 2.0 quote verifies for no other, a TPM 1.2 quote only for one that collides. */
  lemma QuoteIsFresh(lib: Library, ak: AKPublic, q: Quote, a: seq<PCR>, n1: bytes, b: seq<PCR>, n2: bytes)
    requires Verifies(lib, ak, q, a, n1) && Verifies(lib, ak, q, b, n2)
    ensures q.version == TPM12 || q.version == TPM20
    ensures n1 == n2 || (q.version == TPM12 && lib.hash(SHA1, n1) == lib.hash(SHA1, n2))
  {
  }

  /** Accepted quotes cannot be presented again for another nonce, whatever the PCRs. */
  lemma AcceptanceIsFresh(lib: Library, ak: AKPublic, quotes: seq<Quote>, before1: seq<PCR>, n1: bytes, arr1: seq<seq<PCR>>,
                          before2: seq<PCR>, n2: bytes, arr2: seq<seq<PCR>>)
    requires Accepted(lib, ak, quotes, n1, before1, arr1) && Accepted(lib, ak, quotes, n2, before2, arr2)
    ensures n1 == n2 || (lib.hash(SHA1, n1) == lib.hash(SHA1, n2) && forall q | q in quotes :: q.version == TPM12)
  {
    forall i | 0 <= i < |quotes|
      ensures n1 == n2 || (quotes[i].version == TPM12 && lib.hash(SHA1, n1) == lib.hash(SHA1, n2))
    {
      assert VerifiesAt(lib, ak, quotes, n1, arr1, i) && VerifiesAt(lib, ak, quotes, n2, arr2, i);
      QuoteIsFresh(lib, ak, quotes[i], arr1[i], n1, arr2[i], n2);
    }
    assert n1 != n2 ==> quotes[0].version == TPM12;
  }

  /** Every accepted quote is signed by the one key. */
  lemma AcceptedAreSigned(lib: Library, ak: AKPublic, quotes: seq<Quote>, before: seq<PCR>, nonce: bytes,
                          arr: seq<seq<PCR>>, i: nat)
    returns (sig: bytes)
    requires Accepted(lib, ak, quotes, nonce, before, arr) && i < |quotes|
    ensures var alg := if quotes[i].version == TPM12 then SHA1 else ak.hash;
            ak.public.RSA? && lib.rsaVerify(ak.public.id, alg, lib.hash(alg, quotes[i].quote), sig)
    ensures if quotes[i].version == TPM12 then sig == quotes[i].signature
            else lib.decodeSignature(quotes[i].signature) == Some(Some(sig))
  {
    assert VerifiesAt(lib, ak, quotes, nonce, arr, i);
    if quotes[i].version == TPM12 {
      sig := quotes[i].signature;
    } else {
      var att;
      att, sig := GenuineWhenVerified(lib, ak, quotes[i], arr[i], nonce);
    }
  }

  // ----- What a TPM 2.0 quote is compared with -----

  /** The bank named by the low byte of the algorithm ID: 4 for SHA1, 11 for SHA256. */
  predicate InBank(att: Quotes.Attestation, p: PCR) {
    match p.alg
    case SHA1 => att.pcrHash % 256 == 4
    case SHA256 => att.pcrHash % 256 == 11
    case NoHash => att.pcrHash % 256 != 4 && att.pcrHash % 256 != 11
    case OtherHash(_) => false
  }

  lemma InBankIs(att: Quotes.Attestation, p: PCR)
    ensures InBank(att, p) <==> p.alg == Bank(att)
  {
  }

  /** The i-th PCR is the last one given for this index of the bank. */
  predicate LastAt(att: Quotes.Attestation, pcrs: seq<PCR>, index: int, i: nat)
    requires i < |pcrs|
  {
    InBank(att, pcrs[i]) && pcrs[i].index == index &&
    forall j | i < j < |pcrs| :: !(InBank(att, pcrs[j]) && pcrs[j].index == index)
  }

  lemma {:induction false} LastDigestAt(att: Quotes.Attestation, pcrs: seq<PCR>, index: int, i: nat)
    requires i < |pcrs| && LastAt(att, pcrs, index, i)
    ensures LastDigest(pcrs, Bank(att), index) == Some(pcrs[i].digest)
  {
    var n := |pcrs| - 1;
    InBankIs(att, pcrs[n]);
    if i < n {
      LastDigestAt(att, pcrs[..n], index, i);
    }
  }

  lemma {:induction false} LastDigestHas(att: Quotes.Attestation, pcrs: seq<PCR>, index: int) returns (i: nat)
    requires LastDigest(pcrs, Bank(att), index).Some?
    ensures i < |pcrs| && LastAt(att, pcrs, index, i)
  {
    var n := |pcrs| - 1;
    InBankIs(att, pcrs[n]);
    if InBank(att, pcrs[n]) && pcrs[n].index == index {
      i := n;
    } else {
      i := LastDigestHas(att, pcrs[..n], index);
    }
  }

  /** The PCRs at the given positions, one for each selected index in selection order. */
  predicate Selects(att: Quotes.Attestation, pcrs: seq<PCR>, at: seq<nat>) {
    |at| == |att.pcrs| && forall k | 0 <= k < |at| :: at[k] < |pcrs| && LastAt(att, pcrs, att.pcrs[k], at[k])
  }

  function PCRsAt(pcrs: seq<PCR>, at: seq<nat>): (r: seq<PCR>)
    requires forall k | 0 <= k < |at| :: at[k] < |pcrs|
    ensures |r| == |at|
  {
    seq(|at|, k requires 0 <= k < |at| => pcrs[at[k]])
  }

  lemma {:induction false} SelectedAre(att: Quotes.Attestation, pcrs: seq<PCR>, at: seq<nat>, n: nat)
    requires Selects(att, pcrs, at) && n <= |at|
    ensures Selected(pcrs, Bank(att), att.pcrs[..n]) == Values(PCRsAt(pcrs, at[..n]))
  {
    if n == 0 {
    } else {
      SelectedAre(att, pcrs, at, n - 1);
      LastDigestAt(att, pcrs, att.pcrs[n - 1], at[n - 1]);
      assert att.pcrs[..n][..n - 1] == att.pcrs[..n - 1];
      assert PCRsAt(pcrs, at[..n])[..n - 1] == PCRsAt(pcrs, at[..n - 1]);
    }
  }

  /**
   A genuine quote verifies exactly when the provided PCRs of its bank are the selected ones
   and the hash of their values, one behind the other, is the one that was signed.
   */
  lemma Verifies20Iff(lib: Library, ak: AKPublic, q: Quote, att: Quotes.Attestation, sig: bytes,
                      pcrs: seq<PCR>, nonce: bytes)
    requires q.version == TPM20 && Genuine20(lib, ak, q, att, sig, nonce)
    ensures Verifies(lib, ak, q, pcrs, nonce) <==>
              && AllSelected(att, pcrs)
              && exists at | Selects(att, pcrs, at) :: lib.hash(ak.hash, Values(PCRsAt(pcrs, at))) == att.pcrDigest
  {
    Genuine20Is(lib, ak, q, att, sig, nonce);
    if Verifies(lib, ak, q, pcrs, nonce) {
      var at := MatchesSelected(lib, ak, att, pcrs);
    }
    if at :| Selects(att, pcrs, at) && lib.hash(ak.hash, Values(PCRsAt(pcrs, at))) == att.pcrDigest {
      SelectedMatches(lib, ak, att, pcrs, at);
    }
  }

  /** The bank's PCRs are among the selected ones. */
  predicate AllSelected(att: Quotes.Attestation, pcrs: seq<PCR>) {
    forall p | p in pcrs && InBank(att, p) :: p.index in att.pcrs
  }

  lemma AllSelectedIs(att: Quotes.Attestation, pcrs: seq<PCR>)
    ensures AllSelected(att, pcrs) <==> forall p | p in pcrs && p.alg == Bank(att) :: p.index in att.pcrs
  {
    forall p | p in pcrs ensures InBank(att, p) <==> p.alg == Bank(att) {
      InBankIs(att, p);
    }
  }

  lemma MatchesSelected(lib: Library, ak: AKPublic, att: Quotes.Attestation, pcrs: seq<PCR>) returns (at: seq<nat>)
    requires Matches20(lib, ak, att, pcrs)
    ensures AllSelected(att, pcrs) && Selects(att, pcrs, at) && lib.hash(ak.hash, Values(PCRsAt(pcrs, at))) == att.pcrDigest
  {
    AllSelectedIs(att, pcrs);
    at := Positions(att, pcrs, |att.pcrs|);
    WholeSelection(att, pcrs, at);
  }

  lemma SelectedMatches(lib: Library, ak: AKPublic, att: Quotes.Attestation, pcrs: seq<PCR>, at: seq<nat>)
    requires Selects(att, pcrs, at) && lib.hash(ak.hash, Values(PCRsAt(pcrs, at))) == att.pcrDigest
    ensures Matches20(lib, ak, att, pcrs) <==> AllSelected(att, pcrs)
  {
    AllSelectedIs(att, pcrs);
    WholeSelection(att, pcrs, at);
    forall i | i in att.pcrs ensures LastDigest(pcrs, Bank(att), i).Some? {
      var k :| 0 <= k < |att.pcrs| && att.pcrs[k] == i;
      LastDigestAt(att, pcrs, i, at[k]);
    }
  }

  lemma WholeSelection(att: Quotes.Attestation, pcrs: seq<PCR>, at: seq<nat>)
    requires Selects(att, pcrs, at)
    ensures Selected(pcrs, Bank(att), att.pcrs) == Values(PCRsAt(pcrs, at))
  {
    SelectedAre(att, pcrs, at, |at|);
    assert att.pcrs[..|at|] == att.pcrs && at[..|at|] == at;
  }

  lemma {:induction false} Positions(att: Quotes.Attestation, pcrs: seq<PCR>, n: nat) returns (at: seq<nat>)
    requires n <= |att.pcrs| && forall i | i in att.pcrs :: LastDigest(pcrs, Bank(att), i).Some?
    ensures |at| == n && forall k | 0 <= k < n :: at[k] < |pcrs| && LastAt(att, pcrs, att.pcrs[k], at[k])
  {
    at := [];
    if n > 0 {
      at := Positions(att, pcrs, n - 1);
      var i := LastDigestHas(att, pcrs, att.pcrs[n - 1]);
      at := at + [i];
    }
  }

  // ----- What a TPM 1.2 quote is compared with -----

  predicate InIndexOrder(pcrs: seq<PCR>) {
    forall i, j | 0 <= i < j < |pcrs| :: pcrs[i].index <= pcrs[j].index
  }

  lemma InIndexOrderIs(pcrs: seq<PCR>)
    ensures InIndexOrder(pcrs) <==> SortedBy(pcrs, Index)
  {
    assert forall i | 0 <= i < |pcrs| :: Index(pcrs[i]) == pcrs[i].index;
  }

  /**
   A TPM 1.2 quote verifies exactly when it is genuine, the PCRs are in index order with indices
   below 24, and the hash of selection and values is the one that was signed.
   */
  lemma Verifies12Iff(lib: Library, ak: AKPublic, q: Quote, pcrs: seq<PCR>, nonce: bytes)
    requires q.version == TPM12
    ensures Verifies(lib, ak, q, pcrs, nonce) <==>
              && Genuine12(lib, ak, q, nonce) && InIndexOrder(pcrs)
              && (forall p | p in pcrs :: 0 <= p.index < 24)
              && lib.hash(SHA1, Composite(Mask(pcrs), Values(pcrs))) == q.quote[8..28]
  {
    Genuine12Is(lib, ak, q, nonce);
    InIndexOrderIs(pcrs);
    assert (forall p | p in pcrs :: 0 <= p.index < 24) <==> forall p | p in pcrs :: InRange(p);
  }

  lemma OneBit(k: nat)
    requires k < 8
    ensures ((1 as bv8) << k) as int == [1, 2, 4, 8, 16, 32, 64, 128][k]
  {
  }

  /** A PCR's bit in the selection is the one with the weight of its index in its byte. */
  lemma OneMask(p: PCR)
    requires 0 <= p.index < 24
    ensures Mask([p]) == [0, 0, 0][p.index / 8 := (1 as bv8) << (p.index % 8)]
  {
    assert [p][..0] == [];
  }

  /** PCRs 0 and 9: the selection has three bytes, and the values 40. */
  lemma CompositeExample(x: bytes, y: bytes)
    requires |x| == 20 && |y| == 20
    ensures var pcrs := [PCR(0, x, SHA1, false), PCR(9, y, SHA1, false)];
            Composite(Mask(pcrs), Values(pcrs)) == [0, 3, 1, 2, 0, 0, 0, 0, 40] + x + y
  {
    var p, q := PCR(0, x, SHA1, false), PCR(9, y, SHA1, false);
    ValuesMore([], p);
    ValuesMore([p], q);
    MaskMore([p], q);
    OneMask(p);
    assert [] + [p] == [p] && [p] + [q] == [p, q] && [] + x == x;
    assert Mask([p, q]) == [1, 2, 0];
    assert Big32(40) == [0, 0, 0, 40];
  }

  // ----- What is flagged -----

  /** A quote that verifies flags all PCRs for TPM 1.2, those of its bank for TPM 2.0, and changes nothing else. */
  lemma FlagsAre(lib: Library, q: Quote, pcrs: seq<PCR>, k: nat)
    requires k < |pcrs|
    ensures var att, p := lib.decodeAttestation(q.quote), pcrs[k];
            FlagCovered(lib, q, pcrs)[k] ==
            PCR(p.index, p.digest, p.alg,
                p.quoteVerified || q.version == TPM12 || (q.version == TPM20 && att.Some? && InBank(att.value, p)))
  {
    if lib.decodeAttestation(q.quote).Some? {
      InBankIs(lib.decodeAttestation(q.quote).value, pcrs[k]);
    }
  }
}
