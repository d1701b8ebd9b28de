/**
 The symmetric part of a TPM 1.2 activation challenge and its inverse
 (attest/challenge.go; attest/tpm_windows.go: decryptCredential).
 */
module Challenge12 {
  import opened Arithmetic
  import opened Bytes
  import opened Hashing
  import opened NetworkOrder

  const BLOCK := 16
  const SYM_MODE_CBC: uint32 := 2

  predicate IsBlock(b: bytes) {
    |b| == BLOCK
  }

  /** The key sizes aes.NewCipher accepts. */
  predicate IsKey(k: bytes) {
    |k| == 16 || |k| == 24 || |k| == 32
  }

  datatype Functions = Functions(encrypt: (bytes, bytes) -> bytes, decrypt: (bytes, bytes) -> bytes)

  ghost predicate Inverts(c: Functions) {
    forall k, b | IsKey(k) && IsBlock(b) ::
      IsBlock(c.encrypt(k, b)) && IsBlock(c.decrypt(k, b)) && c.decrypt(k, c.encrypt(k, b)) == b
  }

  /** Any block cipher: decryption inverts encryption, and nothing else is assumed. */
  type BlockCipher = c: Functions | Inverts(c) witness Functions((k, b) => b, (k, b) => b)

  // ----- Padding: section 6.3 of RFC 5652 -----

  /** At least one byte, each of them saying how many there are, up to a multiple of the block size. */
  method Pad(plaintext: bytes, bsize: int) returns (padded: bytes)
    requires bsize > 0
    ensures var n := |padded| - |plaintext|;
            1 <= n <= bsize && |padded| % bsize == 0 && padded == plaintext + Copies(n % 0x100, n)
  {
    var pad := bsize - |plaintext| % bsize;
    if pad == 0 {
      pad := bsize;
    }
    Aligned(|plaintext|, bsize);
    padded := plaintext;
    var i := 0;
    while i < pad
      invariant 0 <= i <= pad
      invariant padded == plaintext + Copies(pad % 0x100, i)
    {
      padded := padded + [pad % 0x100];
      i := i + 1;
    }
  }

  lemma Aligned(n: nat, bsize: int)
    requires bsize > 0
    ensures (n + (bsize - n % bsize)) % bsize == 0
  {
    Quotient(n + (bsize - n % bsize), bsize, n / bsize + 1, 0);
  }

  // ----- CBC: section 6.2 of NIST SP 800-38A -----

  /** Exclusive or of the k low-order bits. */
  function XorBits(x: nat, y: nat, k: nat): (r: nat)
    ensures r < Pow2(k)
  {
    if k == 0 then 0 else (x + y) % 2 + 2 * XorBits(x / 2, y / 2, k - 1)
  }

  lemma LowBit(b: nat, q: nat)
    requires b < 2
    ensures (b + 2 * q) % 2 == b && (b + 2 * q) / 2 == q
  {
  }

  lemma ParityBack(x: nat, y: nat, r: nat)
    requires r % 2 == (x + y) % 2
    ensures (r + y) % 2 == x % 2
  {
  }

  lemma {:induction false} XorBitsBack(x: nat, y: nat, k: nat)
    requires x < Pow2(k)
    ensures XorBits(XorBits(x, y, k), y, k) == x
  {
    if k == 0 {
    } else {
      LowBit((x + y) % 2, XorBits(x / 2, y / 2, k - 1));
      ParityBack(x, y, XorBits(x, y, k));
      XorBitsBack(x / 2, y / 2, k - 1);
    }
  }

  function Xor(a: bytes, b: bytes): (r: bytes)
    requires |a| == |b|
    ensures |r| == |a|
  {
    assert Pow2(4) == 16 && Pow2(8) == 256;
    seq(|a|, i requires 0 <= i < |a| => XorBits(a[i], b[i], 8))
  }

  lemma XorBack(a: bytes, b: bytes)
    requires |a| == |b|
    ensures Xor(Xor(a, b), b) == a
  {
    assert Pow2(4) == 16 && Pow2(8) == 256;
    forall i | 0 <= i < |a| ensures Xor(Xor(a, b), b)[i] == a[i] {
      XorBitsBack(a[i], b[i], 8);
    }
  }

  function EncryptBlock(c: BlockCipher, key: bytes, b: bytes): (r: bytes)
    requires IsKey(key) && IsBlock(b)
    ensures IsBlock(r) && DecryptBlock(c, key, r) == b
  {
    assert Inverts(c);
    c.encrypt(key, b)
  }

  function DecryptBlock(c: BlockCipher, key: bytes, b: bytes): (r: bytes)
    requires IsKey(key) && IsBlock(b)
    ensures IsBlock(r)
  {
    assert Inverts(c);
    c.decrypt(key, b)
  }

  function CbcEncrypt(c: BlockCipher, key: bytes, iv: bytes, plain: bytes): (ct: bytes)
    requires IsKey(key) && IsBlock(iv) && |plain| % BLOCK == 0
    ensures |ct| == |plain|
    decreases |plain|
  {
    if |plain| < BLOCK then []
    else
      var b := EncryptBlock(c, key, Xor(plain[..BLOCK], iv));
      b + CbcEncrypt(c, key, b, plain[BLOCK..])
  }

  function CbcDecrypt(c: BlockCipher, key: bytes, iv: bytes, ct: bytes): (plain: bytes)
    requires IsKey(key) && IsBlock(iv) && |ct| % BLOCK == 0
    ensures |plain| == |ct|
    decreases |ct|
  {
    if |ct| < BLOCK then []
    else Xor(DecryptBlock(c, key, ct[..BLOCK]), iv) + CbcDecrypt(c, key, ct[..BLOCK], ct[BLOCK..])
  }

  lemma {:induction false} CbcRoundTrip(c: BlockCipher, key: bytes, iv: bytes, plain: bytes)
    requires IsKey(key) && IsBlock(iv) && |plain| % BLOCK == 0
    ensures CbcDecrypt(c, key, iv, CbcEncrypt(c, key, iv, plain)) == plain
    decreases |plain|
  {
    if |plain| < BLOCK {
    } else {
      var b := EncryptBlock(c, key, Xor(plain[..BLOCK], iv));
      var ct := CbcEncrypt(c, key, iv, plain);
      assert ct[..BLOCK] == b && ct[BLOCK..] == CbcEncrypt(c, key, b, plain[BLOCK..]);
      CbcRoundTrip(c, key, b, plain[BLOCK..]);
      XorBack(plain[..BLOCK], iv);
    }
  }

  /** Exclusive or, by its laws: with the involution these leave no other operation on bits. */
  lemma {:induction false} XorLaws(x: nat, y: nat, k: nat)
    requires x < Pow2(k)
    ensures XorBits(x, 0, k) == x && XorBits(x, x, k) == 0 && XorBits(x, y, k) == XorBits(y, x, k)
  {
    if k == 0 {
    } else {
      XorLaws(x / 2, y / 2, k - 1);
      assert (x + x) % 2 == 0 && (x + y) % 2 == (y + x) % 2;
    }
  }

  /** The i-th block. */
  function BlockAt(b: bytes, i: nat): (r: bytes)
    requires 16 * (i + 1) <= |b|
    ensures IsBlock(r)
  {
    b[16 * i..16 * (i + 1)]
  }

  lemma BlockBehind(first: bytes, more: bytes, i: nat)
    requires IsBlock(first) && 16 * (i + 1) <= |more|
    ensures BlockAt(first + more, i + 1) == BlockAt(more, i)
  {
  }

  /** What a block is mixed with: the IV, and then the ciphertext block before it. */
  function Feedback(iv: bytes, ct: bytes, i: nat): (b: bytes)
    requires IsBlock(iv) && 16 * i <= |ct|
    ensures IsBlock(b)
  {
    if i == 0 then iv else BlockAt(ct, i - 1)
  }

  lemma FeedbackBehind(iv: bytes, b: bytes, ct: bytes, i: nat)
    requires IsBlock(iv) && IsBlock(b) && 16 * i <= |ct|
    ensures Feedback(b, ct, i) == Feedback(iv, b + ct, i + 1)
  {
  }

  lemma FirstAndRest(b: bytes)
    requires |b| >= BLOCK
    ensures b == b[..BLOCK] + b[BLOCK..] && BlockAt(b, 0) == b[..BLOCK]
  {
  }

  /** Each block of the ciphertext is the encryption of the plaintext block mixed with the feedback. */
  lemma {:induction false} EncryptedBlocks(c: BlockCipher, key: bytes, iv: bytes, plain: bytes, i: nat)
    requires IsKey(key) && IsBlock(iv) && |plain| % BLOCK == 0 && 16 * (i + 1) <= |plain|
    ensures var ct := CbcEncrypt(c, key, iv, plain);
            BlockAt(ct, i) == EncryptBlock(c, key, Xor(BlockAt(plain, i), Feedback(iv, ct, i)))
    decreases |plain|
  {
    var b := EncryptBlock(c, key, Xor(plain[..BLOCK], iv));
    var more := CbcEncrypt(c, key, b, plain[BLOCK..]);
    FirstAndRest(plain);
    if i == 0 {
      FirstAndRest(b + more);
    } else {
      EncryptedBlocks(c, key, b, plain[BLOCK..], i - 1);
      FeedbackBehind(iv, b, more, i - 1);
      BlockBehind(b, more, i - 1);
      BlockBehind(plain[..BLOCK], plain[BLOCK..], i - 1);
    }
  }

  lemma {:induction false} DecryptedBlocks(c: BlockCipher, key: bytes, iv: bytes, ct: bytes, i: nat)
    requires IsKey(key) && IsBlock(iv) && |ct| % BLOCK == 0 && 16 * (i + 1) <= |ct|
    ensures BlockAt(CbcDecrypt(c, key, iv, ct), i) == Xor(DecryptBlock(c, key, BlockAt(ct, i)), Feedback(iv, ct, i))
    decreases |ct|
  {
    var first, more := Xor(DecryptBlock(c, key, ct[..BLOCK]), iv), CbcDecrypt(c, key, ct[..BLOCK], ct[BLOCK..]);
    FirstAndRest(ct);
    if i == 0 {
      FirstAndRest(first + more);
    } else {
      DecryptedBlocks(c, key, ct[..BLOCK], ct[BLOCK..], i - 1);
      FeedbackBehind(iv, ct[..BLOCK], ct[BLOCK..], i - 1);
      BlockBehind(first, more, i - 1);
      BlockBehind(ct[..BLOCK], ct[BLOCK..], i - 1);
    }
  }

  // ----- The challenge -----

  /** What the padded secret is. */
  function Padded(secret: bytes): (p: bytes)
    ensures |p| % BLOCK == 0 && |secret| < |p| <= |secret| + BLOCK
  {
    var n := BLOCK - |secret| % BLOCK;
    secret + Copies(n, n)
  }

  /** TPM_SYM_MODE_CBC, the IV and the encrypted secret. */
  function SymmetricPart(c: BlockCipher, key: bytes, iv: bytes, secret: bytes): bytes
    requires IsKey(key) && IsBlock(iv)
  {
    Big32(SYM_MODE_CBC) + iv + CbcEncrypt(c, key, iv, Padded(secret))
  }

  /** What decryptCredential does with a blob: the secret, an error, or a run-time panic. */
  datatype Outcome = Secret(secret: bytes) | Refused | Panicked

  function Decrypted(c: BlockCipher, key: bytes, blob: bytes): Outcome {
    if |blob| < 4 || BigEndian(blob[..4]) != SYM_MODE_CBC || |blob| < 20 || !IsKey(key) then Refused
    else if |blob| == 20 || (|blob| - 20) % BLOCK != 0 then Panicked
    else Unpadded(CbcDecrypt(c, key, blob[4..20], blob[20..]))
  }

  /** The last byte says how many bytes to drop; the others are not looked at. */
  function Unpadded(plain: bytes): Outcome
    requires plain != []
  {
    var n := plain[|plain| - 1];
    if n > |plain| then Panicked else Secret(plain[..|plain| - n])
  }

  lemma UnpaddedPadded(secret: bytes)
    ensures Padded(secret) != [] && Unpadded(Padded(secret)) == Secret(secret)
  {
  }

  lemma Parts(a: bytes, b: bytes, rest: bytes)
    requires |a| == 4 && |b| == 16
    ensures var all := a + b + rest;
            all[..4] == a && all[4..20] == b && all[20..] == rest
  {
  }

  /** The credential the challenge carries opens its symmetric part: for every secret, key and IV. */
  lemma ChallengeRoundTrip(c: BlockCipher, key: bytes, iv: bytes, secret: bytes)
    requires IsKey(key) && IsBlock(iv)
    ensures Decrypted(c, key, SymmetricPart(c, key, iv, secret)) == Secret(secret)
  {
    Parts(Big32(SYM_MODE_CBC), iv, CbcEncrypt(c, key, iv, Padded(secret)));
    CbcRoundTrip(c, key, iv, Padded(secret));
    UnpaddedPadded(secret);
  }

  lemma ModeIs(b: bytes)
    requires |b| == 4
    ensures b == [0, 0, 0, 2] <==> BigEndian(b) == SYM_MODE_CBC
  {
    assert Big32(SYM_MODE_CBC) == [0, 0, 0, 2];
    ToBigEndianOf(b);
    ToBigEndianOf(Big32(SYM_MODE_CBC));
  }

  /** Refused are blobs without mode 2 or IV, and keys of other than 16, 24 or 32 bytes. */
  lemma RefusedIff(c: BlockCipher, key: bytes, blob: bytes)
    ensures Decrypted(c, key, blob) == Refused <==>
              |blob| < 20 || blob[..4] != [0, 0, 0, 2] || (|key| != 16 && |key| != 24 && |key| != 32)
  {
    if |blob| >= 4 {
      ModeIs(blob[..4]);
    }
  }

  /** The secret is the plaintext without as many bytes as its last byte says. */
  lemma SecretIs(c: BlockCipher, key: bytes, blob: bytes)
    requires Decrypted(c, key, blob).Secret?
    ensures |blob| > 20 && |blob| % 16 == 4 && IsKey(key)
    ensures var plain := CbcDecrypt(c, key, blob[4..20], blob[20..]);
            plain == Decrypted(c, key, blob).secret + plain[|plain| - plain[|plain| - 1]..]
  {
  }

  lemma PartialBlock(n: nat)
    requires n >= 20
    ensures (n - 20) % BLOCK != 0 <==> n % BLOCK != 4
  {
  }

  /** A run-time panic: nothing to decrypt, a partial block, or a last byte that counts more than there is. */
  lemma PanicsIff(c: BlockCipher, key: bytes, blob: bytes)
    ensures Decrypted(c, key, blob) == Panicked <==>
              && |blob| >= 20 && blob[..4] == [0, 0, 0, 2] && IsKey(key)
              && (|| |blob| == 20 || |blob| % BLOCK != 4
                  || CbcDecrypt(c, key, blob[4..20], blob[20..])[|blob| - 21] > |blob| - 20)
  {
    if |blob| >= 20 {
      ModeIs(blob[..4]);
      PartialBlock(|blob|);
    }
  }

  /** A whole block of 0xff, encrypted with any key, is such a blob. */
  lemma OverlongPaddingPanics(c: BlockCipher, key: bytes, iv: bytes)
    requires IsKey(key) && IsBlock(iv)
    ensures Decrypted(c, key, Big32(SYM_MODE_CBC) + iv + CbcEncrypt(c, key, iv, Copies(0xff, BLOCK))) == Panicked
  {
    Parts(Big32(SYM_MODE_CBC), iv, CbcEncrypt(c, key, iv, Copies(0xff, BLOCK)));
    CbcRoundTrip(c, key, iv, Copies(0xff, BLOCK));
  }

  // ----- The code -----

  /** pad, then CryptBlocks and the three writes: the symmetric part of generateChallenge12. */
  method GenerateSymmetric(c: BlockCipher, aeskey: bytes, iv: bytes, secret: bytes) returns (symOut: bytes)
    requires IsKey(aeskey) && IsBlock(iv)
    ensures symOut == SymmetricPart(c, aeskey, iv, secret)
    ensures Decrypted(c, aeskey, symOut) == Secret(secret)
  {
    var padded := Pad(secret, |iv|);
    PaddedIs(secret, padded);
    var symenc := CbcEncrypt(c, aeskey, iv, padded);
    symOut := Big32(SYM_MODE_CBC);
    symOut := symOut + iv;
    symOut := symOut + symenc;
    ChallengeRoundTrip(c, aeskey, iv, secret);
  }

  /** There is only one way to pad to a multiple of the block size with one to BLOCK bytes. */
  lemma PaddedIs(secret: bytes, padded: bytes)
    requires var n := |padded| - |secret|;
             1 <= n <= BLOCK && |padded| % BLOCK == 0 && padded == secret + Copies(n % 0x100, n)
    ensures padded == Padded(secret)
  {
  }

  /** CryptBlocks of a CBC decrypter, with source and destination the same. */
  method CryptBlocks(c: BlockCipher, key: bytes, iv: bytes, a: array<byte>)
    requires IsKey(key) && IsBlock(iv) && a.Length % BLOCK == 0
    modifies a
    ensures a[..] == CbcDecrypt(c, key, iv, old(a[..]))
  {
    var plain := CbcDecrypt(c, key, iv, a[..]);
    forall i | 0 <= i < a.Length {
      a[i] := plain[i];
    }
  }

  /** Decryption in place and the removal of the padding. */
  method OpenSecret(c: BlockCipher, key: bytes, iv: bytes, secret: array<byte>) returns (r: Outcome)
    requires IsKey(key) && IsBlock(iv)
    modifies secret
    ensures r == if secret.Length == 0 || secret.Length % BLOCK != 0 then Panicked
                 else Unpadded(CbcDecrypt(c, key, iv, old(secret[..])))
  {
    if secret.Length % BLOCK != 0 {
      return Panicked;
    }
    CryptBlocks(c, key, iv, secret);
    if secret.Length == 0 {
      return Panicked;
    }
    var padlen := secret[secret.Length - 1];
    if padlen > secret.Length {
      return Panicked;
    }
    r := Secret(secret[..secret.Length - padlen]);
  }

  method DecryptCredential(c: BlockCipher, secretKey: bytes, blob: bytes) returns (r: Outcome)
    ensures r == Decrypted(c, secretKey, blob)
  {
    var symbuf := new Buffer(blob);
    var scheme := symbuf.ReadFull(4);
    if scheme == None || BigEndian(scheme.value) != SYM_MODE_CBC {
      return Refused;
    }
    var iv := symbuf.ReadFull(16);
    if iv == None || !IsKey(secretKey) {
      return Refused;
    }
    assert blob[4..][..16] == blob[4..20] && blob[4..][16..] == blob[20..];
    var cipherText := symbuf.ReadFull(|blob| - 20);
    var secret := new byte[|blob| - 20](i requires 0 <= i < |cipherText.value| => cipherText.value[i]);
    assert secret[..] == blob[20..];
    r := OpenSecret(c, secretKey, iv.value, secret);
  }

  // ----- What is encrypted to the endorsement key -----

  const EK_BLOB_TAG: uint16 := 0x000c
  const EK_BLOB_ACTIVATE_TAG: uint16 := 0x002b
  const EK_TYPE_ACTIVATE: uint16 := 0x0001
  const ALG_XOR: uint32 := 0x0000000a
  const SCHEME_ES_NONE: uint16 := 0x0001

  /** An empty selection of three bytes, locality zero, and a composite hash of zeros. */
  const EMPTY_PCR_INFO: bytes := Big16(3) + Copies(0, 3) + [1] + Copies(0, 20)

  const EK_BLOB_HEADER: bytes := Big16(EK_BLOB_TAG) + Big16(EK_TYPE_ACTIVATE)

  const ACTIVATION_HEADER: bytes := Big16(EK_BLOB_ACTIVATE_TAG) + Big32(ALG_XOR) + Big16(SCHEME_ES_NONE)

  function ActivationBlob(symKey: bytes, akDigest: bytes): bytes {
    ACTIVATION_HEADER + Big16(Narrow16(|symKey|)) + symKey + akDigest + EMPTY_PCR_INFO
  }

  function EkBlob(activation: bytes): bytes {
    EK_BLOB_HEADER + Big32(Narrow32(|activation|)) + activation
  }

  /** The key and the attestation key's digest, between a header and a trailer and delimited by the key's length. */
  function Delimited(header: bytes, trailer: bytes, blob: bytes): Option<(bytes, bytes)>
    requires |header| == 8
  {
    if |blob| < 10 || blob[..8] != header then None
    else
      var n := BigEndian(blob[8..10]);
      if |blob| != 30 + n + |trailer| || blob[30 + n..] != trailer then None
      else Some((blob[10..10 + n], blob[10 + n..30 + n]))
  }

  function ReadActivationBlob(blob: bytes): Option<(bytes, bytes)> {
    Delimited(ACTIVATION_HEADER, EMPTY_PCR_INFO, blob)
  }

  function ReadEkBlob(blob: bytes): Option<(bytes, bytes)> {
    if |blob| < 8 || blob[..4] != EK_BLOB_HEADER || BigEndian(blob[4..8]) != |blob| - 8 then None
    else ReadActivationBlob(blob[8..])
  }

  lemma DelimitedRoundTrip(header: bytes, symKey: bytes, akDigest: bytes, trailer: bytes)
    requires |header| == 8 && |symKey| < 0x1_0000 && |akDigest| == 20
    ensures Delimited(header, trailer, header + Big16(|symKey|) + symKey + akDigest + trailer) == Some((symKey, akDigest))
  {
    var all, n := header + Big16(|symKey|) + symKey + akDigest + trailer, |symKey|;
    assert all[..8] == header && all[8..10] == Big16(n) && all[10..10 + n] == symKey;
    assert all[10 + n..30 + n] == akDigest && all[30 + n..] == trailer;
  }

  lemma EkBlobOf(activation: bytes)
    requires |activation| < TWO_32
    ensures ReadEkBlob(EkBlob(activation)) == ReadActivationBlob(activation)
  {
  }

  /** The two blobs, byte by byte. */
  lemma BlobBytes(symKey: bytes, akDigest: bytes)
    requires |symKey| < 0x1_0000 && |akDigest| == 20
    ensures ActivationBlob(symKey, akDigest) ==
            [0x00, 0x2b, 0x00, 0x00, 0x00, 0x0a, 0x00, 0x01] + [|symKey| / 256, |symKey| % 256] + symKey + akDigest +
            ([0x00, 0x03, 0x00, 0x00, 0x00, 0x01] + Copies(0, 20))
    ensures var n := |ActivationBlob(symKey, akDigest)|;
            EkBlob(ActivationBlob(symKey, akDigest)) ==
            [0x00, 0x0c, 0x00, 0x01] + [0, n / 65536, n / 256 % 256, n % 256] + ActivationBlob(symKey, akDigest)
  {
    assert ACTIVATION_HEADER == [0x00, 0x2b, 0x00, 0x00, 0x00, 0x0a, 0x00, 0x01];
    assert EMPTY_PCR_INFO == [0x00, 0x03, 0x00, 0x00, 0x00, 0x01] + Copies(0, 20);
    assert EK_BLOB_HEADER == [0x00, 0x0c, 0x00, 0x01];
  }

  /**
   makeActivationBlob and makeEkBlob: whoever can decrypt the blob reads the session key
   and which attestation key it is for.
   */
  method MakeEkBlob(hash: HashFunction, symKey: bytes, akpub: bytes) returns (blob: bytes)
    ensures |symKey| < 0x1_0000 ==> ReadEkBlob(blob) == Some((symKey, hash(SHA1, akpub)))
    ensures blob == EkBlob(ActivationBlob(symKey, hash(SHA1, akpub)))
  {
    var activation := Big16(EK_BLOB_ACTIVATE_TAG) + Big32(ALG_XOR) + Big16(SCHEME_ES_NONE) + Big16(Narrow16(|symKey|));
    activation := activation + symKey;
    activation := activation + hash(SHA1, akpub);
    activation := activation + EMPTY_PCR_INFO;
    blob := Big16(EK_BLOB_TAG) + Big16(EK_TYPE_ACTIVATE) + Big32(Narrow32(|activation|));
    blob := blob + activation;
    if |symKey| < 0x1_0000 {
      DelimitedRoundTrip(ACTIVATION_HEADER, symKey, hash(SHA1, akpub), EMPTY_PCR_INFO);
      EkBlobOf(activation);
    }
  }
}
