/**
 Verification of PCR quotes (attest/eventlog.go: validate12Quote, validate20Quote;
 attest/attest.go: AKPublic.Verify, AKPublic.VerifyAll) over the caller's slice of PCRs.
 */
module Quotes {
  import opened Bytes
  import opened Hashing
  import opened NetworkOrder
  import opened Replay
  import opened Sorting

  datatype PublicKey = RSA(id: nat) | OtherKey

  datatype AKPublic = AKPublic(public: PublicKey, hash: CryptoHash)

  datatype TPMVersion = TPM12 | TPM20 | OtherVersion

  datatype Quote = Quote(version: TPMVersion, quote: bytes, signature: bytes)

  /** The part of a decoded TPMS_ATTEST that is looked at. */
  datatype Attestation =
    Attestation(isQuote: bool, extraData: bytes, pcrHash: uint16, pcrs: seq<int>, pcrDigest: bytes)

  /** Hashing, RSA verification and TPM structure decoding, of which nothing is assumed. */
  datatype Library = Library(
    hash: HashFunction,
    rsaVerify: (nat, CryptoHash, bytes, bytes) -> bool,
    decodeSignature: bytes -> Option<Option<bytes>>,
    decodeAttestation: bytes -> Option<Attestation>)

  // ----- TPM 2.0 quotes -----

  /** The quote is an authentic TPM 2.0 quote for the nonce. */
  predicate Signed20(lib: Library, ak: AKPublic, quote: Quote, nonce: bytes) {
    var sig, att := lib.decodeSignature(quote.signature), lib.decodeAttestation(quote.quote);
    && sig.Some? && sig.value.Some? && ak.public.RSA?
    && lib.rsaVerify(ak.public.id, ak.hash, lib.hash(ak.hash, quote.quote), sig.value.value)
    && att.Some? && att.value.isQuote && att.value.extraData == nonce
  }

  /** The bank a quote names, through the eight bits of HashAlg. */
  function Bank(att: Attestation): CryptoHash {
    CryptoHashOf(att.pcrHash % 0x100)
  }

  /** The last value provided for a PCR of a bank. */
  function LastDigest(pcrs: seq<PCR>, alg: CryptoHash, index: int): Option<bytes> {
    if pcrs == [] then None
    else
      var p := pcrs[|pcrs| - 1];
      if p.alg == alg && p.index == index then Some(p.digest) else LastDigest(pcrs[..|pcrs| - 1], alg, index)
  }

  /** The provided values of the selected PCRs, in selection order. */
  function Selected(pcrs: seq<PCR>, alg: CryptoHash, selection: seq<int>): bytes {
    if selection == [] then []
    else
      Selected(pcrs, alg, selection[..|selection| - 1]) +
      LastDigest(pcrs, alg, selection[|selection| - 1]).GetOr([])
  }

  /** The bank's provided PCRs are the selected ones, and their values are what was signed. */
  predicate Matches20(lib: Library, ak: AKPublic, att: Attestation, pcrs: seq<PCR>) {
    && (forall i | i in att.pcrs :: LastDigest(pcrs, Bank(att), i).Some?)
    && (forall p | p in pcrs && p.alg == Bank(att) :: p.index in att.pcrs)
    && lib.hash(ak.hash, Selected(pcrs, Bank(att), att.pcrs)) == att.pcrDigest
  }

  function FlaggedIf(p: PCR, flag: bool): PCR {
    p.(quoteVerified := p.quoteVerified || flag)
  }

  function FlagBank(pcrs: seq<PCR>, alg: CryptoHash): (r: seq<PCR>)
    ensures |r| == |pcrs|
  {
    seq(|pcrs|, i requires 0 <= i < |pcrs| => FlaggedIf(pcrs[i], pcrs[i].alg == alg))
  }

  lemma LastDigestProvided(pcrs: seq<PCR>, alg: CryptoHash, index: int)
    ensures LastDigest(pcrs, alg, index).Some? <==> exists p | p in pcrs :: p.alg == alg && p.index == index
    ensures LastDigest(pcrs, alg, index).Some? ==>
              PCR(index, LastDigest(pcrs, alg, index).value, alg, true) in pcrs ||
              PCR(index, LastDigest(pcrs, alg, index).value, alg, false) in pcrs
  {
  }

  method PCRsOfBank(pcrs: array<PCR>, alg: CryptoHash) returns (pcrByIndex: map<int, bytes>)
    ensures forall i :: LastDigest(pcrs[..], alg, i) == if i in pcrByIndex then Some(pcrByIndex[i]) else None
  {
    pcrByIndex := map[];
    var k := 0;
    while k < pcrs.Length
      invariant 0 <= k <= pcrs.Length
      invariant forall i :: LastDigest(pcrs[..k], alg, i) == if i in pcrByIndex then Some(pcrByIndex[i]) else None
    {
      assert pcrs[..k + 1] == pcrs[..k] + [pcrs[k]];
      if pcrs[k].alg == alg {
        pcrByIndex := pcrByIndex[pcrs[k].index := pcrs[k].digest];
      }
      k := k + 1;
    }
    assert pcrs[..k] == pcrs[..];
  }

  method ConcatSelected(pcrs: array<PCR>, alg: CryptoHash, pcrByIndex: map<int, bytes>, selection: seq<int>)
    returns (written: Option<bytes>, quotePCRs: set<int>)
    requires forall i :: LastDigest(pcrs[..], alg, i) == if i in pcrByIndex then Some(pcrByIndex[i]) else None
    ensures written.Some? <==> forall i | i in selection :: LastDigest(pcrs[..], alg, i).Some?
    ensures written.Some? ==> written.value == Selected(pcrs[..], alg, selection)
    ensures written.Some? ==> forall i :: i in quotePCRs <==> i in selection
  {
    quotePCRs := {};
    var b: bytes, k := [], 0;
    while k < |selection|
      invariant 0 <= k <= |selection|
      invariant forall i | i in selection[..k] :: LastDigest(pcrs[..], alg, i).Some?
      invariant b == Selected(pcrs[..], alg, selection[..k])
      invariant forall i :: i in quotePCRs <==> i in selection[..k]
    {
      var index := selection[k];
      TakeOneMore(selection, k);
      if index !in pcrByIndex {
        assert index in selection;
        return None, quotePCRs;
      }
      quotePCRs := quotePCRs + {index};
      b := b + pcrByIndex[index];
      k := k + 1;
    }
    assert selection[..k] == selection;
    written := Some(b);
  }

  method FlagQuoted(pcrs: array<PCR>, alg: CryptoHash, quotePCRs: set<int>)
    requires forall p | p in pcrs[..] && p.alg == alg :: p.index in quotePCRs
    modifies pcrs
    ensures pcrs[..] == FlagBank(old(pcrs[..]), alg)
  {
    ghost var before := pcrs[..];
    var i := 0;
    while i < pcrs.Length
      invariant 0 <= i <= pcrs.Length
      invariant forall k | 0 <= k < i :: pcrs[k] == FlaggedIf(before[k], before[k].alg == alg)
      invariant forall k | i <= k < pcrs.Length :: pcrs[k] == before[k]
    {
      assert before[i] in before;
      if pcrs[i].index in quotePCRs && pcrs[i].alg == alg {
        pcrs[i] := pcrs[i].(quoteVerified := true);
      }
      i := i + 1;
    }
  }

  /** On success exactly the quoted bank is flagged and no flag is cleared; on failure nothing changes. */
  method Validate20Quote(lib: Library, ak: AKPublic, quote: Quote, pcrs: array<PCR>, nonce: bytes) returns (ok: bool)
    modifies pcrs
    ensures ok <==> Signed20(lib, ak, quote, nonce) &&
                    Matches20(lib, ak, lib.decodeAttestation(quote.quote).value, old(pcrs[..]))
    ensures pcrs[..] == if ok then FlagBank(old(pcrs[..]), Bank(lib.decodeAttestation(quote.quote).value)) else old(pcrs[..])
  {
    var sig := lib.decodeSignature(quote.signature);
    if sig == None || !ak.public.RSA? || sig.value == None {
      return false;
    }
    if !lib.rsaVerify(ak.public.id, ak.hash, lib.hash(ak.hash, quote.quote), sig.value.value) {
      return false;
    }
    var att := lib.decodeAttestation(quote.quote);
    if att == None || !att.value.isQuote || att.value.extraData != nonce {
      return false;
    }
    var alg, selection := Bank(att.value), att.value.pcrs;
    var pcrByIndex := PCRsOfBank(pcrs, alg);
    var written, quotePCRs := ConcatSelected(pcrs, alg, pcrByIndex, selection);
    if written == None {
      return false;
    }
    var uncovered := pcrByIndex.Keys - quotePCRs;
    BankIndices(pcrs[..], alg, pcrByIndex, quotePCRs);
    if uncovered != {} || lib.hash(ak.hash, written.value) != att.value.pcrDigest {
      return false;
    }
    FlagQuoted(pcrs, alg, quotePCRs);
    ok := true;
  }

  lemma BankIndices(pcrs: seq<PCR>, alg: CryptoHash, pcrByIndex: map<int, bytes>, quotePCRs: set<int>)
    requires forall i :: LastDigest(pcrs, alg, i) == if i in pcrByIndex then Some(pcrByIndex[i]) else None
    ensures pcrByIndex.Keys - quotePCRs == {} <==> forall p | p in pcrs && p.alg == alg :: p.index in quotePCRs
  {
    forall i ensures i in pcrByIndex <==> exists p | p in pcrs :: p.alg == alg && p.index == i {
      LastDigestProvided(pcrs, alg, i);
    }
    if pcrByIndex.Keys - quotePCRs == {} {
      forall p | p in pcrs && p.alg == alg ensures p.index in quotePCRs {
        assert p.index !in pcrByIndex.Keys - quotePCRs;
      }
    }
  }

  // ----- TPM 1.2 quotes -----

  const FIXED_QUOTE: bytes := ['Q' as int, 'U' as int, 'O' as int, 'T' as int]

  /** Version, "QUOT", composite hash and nonce hash, signed over SHA1. */
  predicate Signed12(lib: Library, ak: AKPublic, quote: Quote, nonce: bytes) {
    && ak.public.RSA?
    && lib.rsaVerify(ak.public.id, SHA1, lib.hash(SHA1, quote.quote), quote.signature)
    && |quote.quote| >= 48
    && quote.quote[28..48] == lib.hash(SHA1, nonce)
    && quote.quote[4..8] == FIXED_QUOTE
  }

  function Index(p: PCR): int {
    p.index
  }

  predicate InRange(p: PCR) {
    0 <= p.index < 24
  }

  predicate Bit(b: bv8, k: nat)
    requires k < 8
  {
    b & (1 << k) != 0
  }

  /** mask[i/8] |= 1 << (i%8) */
  function WithBit(mask: seq<bv8>, i: int): (r: seq<bv8>)
    requires |mask| == 3 && 0 <= i < 24
    ensures |r| == 3
  {
    mask[i / 8 := mask[i / 8] | (1 << (i % 8))]
  }

  function Mask(pcrs: seq<PCR>): (r: seq<bv8>)
    requires forall p | p in pcrs :: InRange(p)
    ensures |r| == 3
  {
    if pcrs == [] then [0, 0, 0]
    else
      assert InRange(pcrs[|pcrs| - 1]);
      WithBit(Mask(pcrs[..|pcrs| - 1]), pcrs[|pcrs| - 1].index)
  }

  function Values(pcrs: seq<PCR>): bytes {
    if pcrs == [] then [] else Values(pcrs[..|pcrs| - 1]) + pcrs[|pcrs| - 1].digest
  }

  /** TPM_PCR_COMPOSITE: selection size, selection bitmap, length and values. */
  function Composite(mask: seq<bv8>, values: bytes): bytes
    requires |mask| == 3
  {
    [0, 3, mask[0] as int, mask[1] as int, mask[2] as int] + Big32(Narrow32(|values|)) + values
  }

  predicate Matches12(lib: Library, quote: Quote, pcrs: seq<PCR>) {
    && |quote.quote| >= 48
    && (forall p | p in pcrs :: InRange(p))
    && lib.hash(SHA1, Composite(Mask(pcrs), Values(pcrs))) == quote.quote[8..28]
  }

  lemma SetBit(b: bv8, k: nat, j: nat)
    requires k < 8 && j < 8
    ensures Bit(b | (1 << k), j) <==> j == k || Bit(b, j)
  {
  }

  lemma WithBitBits(mask: seq<bv8>, i: int, k: nat)
    requires |mask| == 3 && 0 <= i < 24 && k < 24
    ensures Bit(WithBit(mask, i)[k / 8], k % 8) <==> k == i || Bit(mask[k / 8], k % 8)
  {
    if k / 8 == i / 8 {
      SetBit(mask[i / 8], i % 8, k % 8);
      assert k == k / 8 * 8 + k % 8 && i == i / 8 * 8 + i % 8;
    }
  }

  /** Bit k of the bitmap is set exactly when some PCR has index k. */
  lemma {:induction false} MaskBits(pcrs: seq<PCR>, k: nat)
    requires (forall p | p in pcrs :: InRange(p)) && k < 24
    ensures Bit(Mask(pcrs)[k / 8], k % 8) <==> exists p | p in pcrs :: p.index == k
  {
    if pcrs == [] {
    } else {
      var front, last := pcrs[..|pcrs| - 1], pcrs[|pcrs| - 1];
      assert pcrs == front + [last];
      MaskBits(front, k);
      assert InRange(last);
      WithBitBits(Mask(front), last.index, k);
    }
  }

  /** The values are hashed in index order: a PCR's digest stands behind those of all smaller indices. */
  lemma {:induction false} ValuesAt(pcrs: seq<PCR>, i: nat)
    requires i < |pcrs|
    ensures |Values(pcrs[..i])| + |pcrs[i].digest| <= |Values(pcrs)|
    ensures Values(pcrs)[|Values(pcrs[..i])|..][..|pcrs[i].digest|] == pcrs[i].digest
  {
    var front := pcrs[..|pcrs| - 1];
    if i == |front| {
    } else {
      ValuesAt(front, i);
      assert front[..i] == pcrs[..i];
    }
  }

  method SortPCRs(pcrs: array<PCR>)
    modifies pcrs
    ensures SortedBy(pcrs[..], Index)
    ensures multiset(pcrs[..]) == multiset(old(pcrs[..]))
  {
    var s := SortSlice(pcrs[..], Index);
    SameLength(pcrs[..], s);
    var i := 0;
    while i < pcrs.Length
      invariant 0 <= i <= pcrs.Length
      invariant pcrs[..i] == s[..i]
    {
      pcrs[i] := s[i];
      i := i + 1;
    }
    assert pcrs[..] == s;
  }

  method CompositeOf(pcrs: array<PCR>) returns (composite: Option<bytes>)
    ensures composite.Some? <==> forall p | p in pcrs[..] :: InRange(p)
    ensures composite.Some? ==> composite.value == Composite(Mask(pcrs[..]), Values(pcrs[..]))
  {
    var mask: seq<bv8>, values: bytes := [0, 0, 0], [];
    var i := 0;
    while i < pcrs.Length
      invariant 0 <= i <= pcrs.Length
      invariant forall p | p in pcrs[..i] :: InRange(p)
      invariant mask == Mask(pcrs[..i])
      invariant values == Values(pcrs[..i])
    {
      var pcr := pcrs[i];
      assert pcrs[..i + 1] == pcrs[..i] + [pcr];
      if pcr.index < 0 || pcr.index >= 24 {
        assert pcr in pcrs[..];
        return None;
      }
      mask := WithBit(mask, pcr.index);
      values := values + pcr.digest;
      i := i + 1;
    }
    assert pcrs[..i] == pcrs[..];
    composite := Some(Composite(mask, values));
  }

  function FlagAll(pcrs: seq<PCR>): (r: seq<PCR>)
    ensures |r| == |pcrs|
  {
    seq(|pcrs|, i requires 0 <= i < |pcrs| => FlaggedIf(pcrs[i], true))
  }

  /**
   A quote that is not authentic leaves the slice alone; an authentic one leaves it sorted
   by index, with every flag set on success and none changed on failure.
   */
  method Validate12Quote(lib: Library, ak: AKPublic, quote: Quote, pcrs: array<PCR>, nonce: bytes)
    returns (ok: bool, ghost arranged: seq<PCR>)
    modifies pcrs
    ensures multiset(arranged) == multiset(old(pcrs[..]))
    ensures if Signed12(lib, ak, quote, nonce) then SortedBy(arranged, Index) else arranged == old(pcrs[..])
    ensures ok <==> Signed12(lib, ak, quote, nonce) && Matches12(lib, quote, arranged)
    ensures pcrs[..] == if ok then FlagAll(arranged) else arranged
  {
    arranged := pcrs[..];
    if !ak.public.RSA? || !lib.rsaVerify(ak.public.id, SHA1, lib.hash(SHA1, quote.quote), quote.signature) {
      return false, arranged;
    }
    if |quote.quote| < 48 {
      return false, arranged;
    }
    if quote.quote[28..48] != lib.hash(SHA1, nonce) || quote.quote[4..8] != FIXED_QUOTE {
      return false, arranged;
    }
    SortPCRs(pcrs);
    arranged := pcrs[..];
    var composite := CompositeOf(pcrs);
    if composite == None || quote.quote[8..28] != lib.hash(SHA1, composite.value) {
      return false, arranged;
    }
    var i := 0;
    while i < pcrs.Length
      invariant 0 <= i <= pcrs.Length
      invariant forall k | 0 <= k < i :: pcrs[k] == FlaggedIf(arranged[k], true)
      invariant forall k | i <= k < pcrs.Length :: pcrs[k] == arranged[k]
    {
      pcrs[i] := pcrs[i].(quoteVerified := true);
      i := i + 1;
    }
    ok := true;
  }
}
