/** The two modes in which the firmware drives the AES hardware for its records, as functions on bytes:
    what the record stores ask of their ciphers holds of AES-256 in these modes. */
module StorageCiphers {
  import opened Bytes
  import opened BlockModes
  import opened AesKeys
  import opened AesCipher
  import opened AesModes
  import HiddenVolume
  import PasswordSafe

  /** n blocks, each on its own (section 6.1 of NIST SP 800-38A). */
  ghost function EachBlock(e: Block -> Block, x: seq<bv8>, n: nat): (y: seq<bv8>)
    requires |x| == 16 * n
    ensures |y| == |x|
    decreases n
  {
    if n == 0 then [] else e(x[..16]) + EachBlock(e, x[16..], n - 1)
  }

  lemma {:induction false} EachBlockUnfolds(e: Block -> Block, block: Block, rest: seq<bv8>, n: nat)
    requires |rest| == 16 * n
    ensures EachBlock(e, block + rest, n + 1) == e(block) + EachBlock(e, rest, n)
  {
  }

  /** Block j of the output depends on block j of the input alone. */
  lemma {:induction false} EachBlockAt(e: Block -> Block, x: seq<bv8>, n: nat, j: nat)
    requires |x| == 16 * n && j < n
    ensures EachBlock(e, x, n)[16 * j..16 * j + 16] == e(x[16 * j..16 * j + 16])
    decreases n
  {
    hide EachBlock;
    EachBlockUnfolds(e, x[..16], x[16..], n - 1);
    assert x == x[..16] + x[16..];
    if j > 0 {
      EachBlockAt(e, x[16..], n - 1, j - 1);
      var rest := EachBlock(e, x[16..], n - 1);
      var y := e(x[..16]) + rest;
      assert y[16..] == rest;
      SliceOfSuffix(y, 16, 16 * (j - 1), 16 * (j - 1) + 16);
      SliceOfSuffix(x, 16, 16 * (j - 1), 16 * (j - 1) + 16);
    }
  }

  lemma {:induction false} EachBlockInverts(e: Block -> Block, d: Block -> Block, x: seq<bv8>, n: nat)
    requires |x| == 16 * n && Undoes(d, e)
    ensures EachBlock(d, EachBlock(e, x, n), n) == x
    decreases n
  {
    if n == 0 {
    } else {
      hide *;
      var (first, rest) := (x[..16], x[16..]);
      assert x == first + rest;
      EachBlockUnfolds(e, first, rest, n - 1);
      EachBlockUnfolds(d, e(first), EachBlock(e, rest, n - 1), n - 1);
      EachBlockInverts(e, d, rest, n - 1);
      Undone(d, e, first);
    }
  }

  predicate Handled(k: seq<bv8>, x: seq<bv8>) {
    |k| == 32 && |x| % 16 == 0
  }

  /** AES_StorageKeyEncryption: every block on its own. */
  ghost function StorageKeyEncryption(k: seq<bv8>, mode: int, x: seq<bv8>): (y: seq<bv8>)
    ensures |y| == |x|
  {
    if Handled(k, x) then EachBlock(AesBlock(KeyColumns(k, 8), mode), x, |x| / 16) else x
  }

  /** AES_KeyEncryption: chained, from an iv that depends on the record number. */
  ghost function KeyEncryption(iv: nat -> Block, k: seq<bv8>, mode: int, n: nat, x: seq<bv8>): (y: seq<bv8>)
    ensures |y| == |x|
  {
    if Handled(k, x) then Cbc(KeyColumns(k, 8), mode, iv(n), x, |x| / 16) else x
  }

  lemma {:induction false} StorageKeyInverts(k: seq<bv8>, x: seq<bv8>)
    requires |x| % 16 == 0
    ensures |StorageKeyEncryption(k, AES_ENCRYPT, x)| == |x| && |StorageKeyEncryption(k, AES_DECRYPT, x)| == |x|
    ensures StorageKeyEncryption(k, AES_DECRYPT, StorageKeyEncryption(k, AES_ENCRYPT, x)) == x
  {
    hide AesBlock, KeyColumns, EachBlock;
    if |k| == 32 {
      var key := KeyColumns(k, 8);
      AesUndoes(key);
      EachBlockInverts(AesBlock(key, AES_ENCRYPT), AesBlock(key, AES_DECRYPT), x, |x| / 16);
    }
  }

  lemma {:induction false} KeyEncryptionInverts(iv: nat -> Block, k: seq<bv8>, n: nat, x: seq<bv8>)
    requires |x| % 16 == 0
    ensures |KeyEncryption(iv, k, AES_ENCRYPT, n, x)| == |x| && |KeyEncryption(iv, k, AES_DECRYPT, n, x)| == |x|
    ensures KeyEncryption(iv, k, AES_DECRYPT, n, KeyEncryption(iv, k, AES_ENCRYPT, n, x)) == x
  {
    hide AesBlock, KeyColumns, Cbc;
    if |k| == 32 {
      CbcRoundTrip(KeyColumns(k, 8), iv(n), x, |x| / 16);
    }
  }

  ghost function SafeCipher(iv: nat -> Block): PasswordSafe.Cipher {
    PasswordSafe.Cipher(
      (k: seq<bv8>, n: nat, x: seq<bv8>) => KeyEncryption(iv, k, AES_ENCRYPT, n, x),
      (k: seq<bv8>, n: nat, x: seq<bv8>) => KeyEncryption(iv, k, AES_DECRYPT, n, x))
  }

  /** The password safe may rely on AES in this mode. */
  lemma {:induction false} SafeCipherIsValid(iv: nat -> Block)
    ensures SafeCipher(iv).Valid()
  {
    hide KeyEncryption;
    forall k: seq<bv8>, n: nat, x: seq<bv8> | |x| == PasswordSafe.PWS_SLOT_LENGTH
      ensures |KeyEncryption(iv, k, AES_ENCRYPT, n, x)| == |x| && |KeyEncryption(iv, k, AES_DECRYPT, n, x)| == |x|
      ensures KeyEncryption(iv, k, AES_DECRYPT, n, KeyEncryption(iv, k, AES_ENCRYPT, n, x)) == x
    {
      KeyEncryptionInverts(iv, k, n, x);
    }
  }

  /** Block j of c is the AES-256 encryption of block j of x, chained to the block before. */
  ghost predicate Chained(k: seq<bv8>, iv: Block, x: seq<bv8>, c: seq<bv8>, j: nat)
    requires |k| == 32 && |x| == |c| == 64 && j < 4
  {
    var before := if j == 0 then iv else c[16 * j - 16..16 * j];
    c[16 * j..16 * j + 16] == Ecb(KeyColumns(k, 8), AES_ENCRYPT, XorBytes(x[16 * j..16 * j + 16], before))
  }

  /** A record of the safe is stored as four such blocks. */
  lemma {:induction false} SafeCipherChains(iv: nat -> Block, k: seq<bv8>, n: nat, x: seq<bv8>, j: nat)
    requires |k| == 32 && |x| == 64 && j < 4
    ensures SafeCipher(iv).encrypt(k, n, x) == KeyEncryption(iv, k, AES_ENCRYPT, n, x)
    ensures Chained(k, iv(n), x, KeyEncryption(iv, k, AES_ENCRYPT, n, x), j)
  {
    hide Ecb, KeyColumns, XorBytes, CbcEncrypt;
    CbcChains(AesBlock(KeyColumns(k, 8), AES_ENCRYPT), iv(n), x, 4, j);
  }

  ghost function VolumeCiphers(iv: nat -> Block, card: seq<bv8> -> seq<bv8>, derive: (seq<bv8>,
          seq<bv8>) -> seq<bv8>): HiddenVolume.Foreign {
    HiddenVolume.Foreign(
      (k: seq<bv8>, x: seq<bv8>) => StorageKeyEncryption(k, AES_ENCRYPT, x),
      (k: seq<bv8>, x: seq<bv8>) => StorageKeyEncryption(k, AES_DECRYPT, x),
      (k: seq<bv8>, n: nat, x: seq<bv8>) => KeyEncryption(iv, k, AES_ENCRYPT, n, x),
      (k: seq<bv8>, n: nat, x: seq<bv8>) => KeyEncryption(iv, k, AES_DECRYPT, n, x),
      card, derive)
  }

  /** The slot area is stored block by block under AES-256. */
  lemma {:induction false} AreaCipherBlocks(iv: nat -> Block, card: seq<bv8> -> seq<bv8>, derive: (seq<bv8>,
          seq<bv8>) -> seq<bv8>, k: seq<bv8>, x: seq<bv8>, j: nat)
    requires |k| == 32 && |x| == 256 && j < 16
    ensures VolumeCiphers(iv, card, derive).encryptArea(k, x) == StorageKeyEncryption(k, AES_ENCRYPT, x)
    ensures StorageKeyEncryption(k, AES_ENCRYPT, x)[16 * j..16 * j + 16]
         == Ecb(KeyColumns(k, 8), AES_ENCRYPT, x[16 * j..16 * j + 16])
  {
    hide Ecb, KeyColumns, EachBlock;
    EachBlockAt(AesBlock(KeyColumns(k, 8), AES_ENCRYPT), x, 16, j);
  }

  /** So may both layers of the hidden-volume slots, whatever the card and the key derivation do. */
  lemma {:induction false} VolumeCiphersAreValid(iv: nat -> Block, card: seq<bv8> -> seq<bv8>, derive: (seq<bv8>,
          seq<bv8>) -> seq<bv8>)
    ensures VolumeCiphers(iv, card, derive).Valid()
  {
    hide KeyEncryption, StorageKeyEncryption;
    forall k: seq<bv8>, x: seq<bv8> | |x| % 16 == 0
      ensures |StorageKeyEncryption(k, AES_ENCRYPT, x)| == |x| && |StorageKeyEncryption(k, AES_DECRYPT, x)| == |x|
      ensures StorageKeyEncryption(k, AES_DECRYPT, StorageKeyEncryption(k, AES_ENCRYPT, x)) == x
    {
      StorageKeyInverts(k, x);
    }
    forall k: seq<bv8>, n: nat, x: seq<bv8> | |x| == HiddenVolume.HV_SLOT_SIZE
      ensures |KeyEncryption(iv, k, AES_ENCRYPT, n, x)| == |x| && |KeyEncryption(iv, k, AES_DECRYPT, n, x)| == |x|
      ensures KeyEncryption(iv, k, AES_DECRYPT, n, KeyEncryption(iv, k, AES_ENCRYPT, n, x)) == x
    {
      KeyEncryptionInverts(iv, k, n, x);
    }
  }
}
