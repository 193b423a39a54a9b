/** aes_crypt_cbc and aes_crypt_cfb128, updating iv and output in place. */
module AesModes {
  import opened Bytes
  import opened BlockModes
  import opened Fips197
  import opened AesTables
  import opened AesKeys
  import opened AesCipher

  /** AES under a key and in a direction, as a block function. */
  ghost function AesBlock(key: seq<Column>, mode: int): Block -> Block
    requires |key| > 0
  {
    (b: Block) => Ecb(key, mode, b)
  }

  lemma {:induction false} AesUndoes(key: seq<Column>)
    requires |key| > 0
    ensures Undoes(AesBlock(key, AES_DECRYPT), AesBlock(key, AES_ENCRYPT))
  {
    hide Ecb;
    forall b: Block
      ensures AesBlock(key, AES_DECRYPT)(AesBlock(key, AES_ENCRYPT)(b)) == b
    {
      EcbInverts(key, b);
    }
  }

  /** The caller's buffers are not the tables, the schedule or the iv. */
  ghost predicate Apart(ctx: Context, t: Tables, a: array<bv8>) {
    a !in t.Arrays() && a as object != ctx.buf && a as object != ctx && a as object != t
  }

  /** dst[o..o + 16] = src[i..i + 16] ^ iv, the ranges being the same or in different arrays. */
  method XorRange(src: array<bv8>, i: nat, iv: array<bv8>, dst: array<bv8>, o: nat)
    requires i + 16 <= src.Length && o + 16 <= dst.Length && iv.Length == 16 && iv != dst
    requires src != dst || i == o
    modifies dst
    ensures dst[..] == Splice(old(dst[..]), o, XorBytes(old(src[i..i + 16]), iv[..]))
  {
    hide XorByte;
    for j := 0 to 16
      invariant forall k: nat :: k < dst.Length && !(o <= k < o + j) ==> dst[k] == old(dst[k])
      invariant forall k: nat :: k < j ==> dst[o + k] == XorByte(old(src[i + k]), iv[k])
    {
      dst[o + j] := XorByte(src[i + j], iv[j]);
    }
  }

  method Copy16(src: array<bv8>, i: nat, dst: array<bv8>)
    requires i + 16 <= src.Length && dst.Length == 16 && src != dst
    modifies dst
    ensures dst[..] == src[i..i + 16]
  {
    for j := 0 to 16
      invariant forall k: nat :: k < j ==> dst[k] == src[i + k]
    {
      dst[j] := src[i + j];
    }
  }
  
  /** With equal or different arrays, the input beyond the block is as before. */
  lemma {:induction false} BeyondBlock(input: array<bv8>, i: nat, output: array<bv8>, o: nat, was: seq<bv8>,
          before: seq<bv8>)
    requires i + 16 <= input.Length && o + 16 <= output.Length
    requires |was| == input.Length && |before| == output.Length
    requires input == output ==> i == o && was == before
    requires input != output ==> input[..] == was
    requires output[..][o + 16..] == before[o + 16..]
    ensures input[i + 16..] == was[i + 16..]
  {
  }

  method CbcEncryptBlock(ctx: Context, t: Tables, ghost key: seq<Column>, iv: array<bv8>, input: array<bv8>, i: nat,
          output: array<bv8>, o: nat)
    requires t.Valid() && |key| > 0 && Keyed(ctx, key, AES_ENCRYPT)
    requires i + 16 <= input.Length && o + 16 <= output.Length && iv.Length == 16
    requires iv != input && iv != output && (input != output || i == o)
    requires Apart(ctx, t, iv) && Apart(ctx, t, output)
    modifies iv, output
    ensures t.Valid() && Keyed(ctx, key, AES_ENCRYPT)
    ensures iv[..] == Ecb(key, AES_ENCRYPT, XorBytes(old(input[i..i + 16]), old(iv[..])))
    ensures output[..] == Splice(old(output[..]), o, iv[..])
    ensures input[i + 16..] == old(input[i + 16..])
  {
    hide Tables.Valid, Keyed, Ecb, Splice, XorBytes;
    ghost var x := XorBytes(input[i..i + 16], iv[..]);
    XorRange(input, i, iv, output, o);
    SpliceRange(old(output[..]), o, x);
    CryptEcb(ctx, t, key, AES_ENCRYPT, output, o, output, o);
    SpliceOver(old(output[..]), o, x, Ecb(key, AES_ENCRYPT, x));
    SpliceRange(old(output[..]), o, Ecb(key, AES_ENCRYPT, x));
    SpliceSuffix(old(output[..]), o, Ecb(key, AES_ENCRYPT, x));
    Copy16(output, o, iv);
    BeyondBlock(input, i, output, o, old(input[..]), old(output[..]));
  }

  method CbcDecryptBlock(ctx: Context, t: Tables, ghost key: seq<Column>, iv: array<bv8>, input: array<bv8>, i: nat,
          output: array<bv8>, o: nat)
    requires t.Valid() && |key| > 0 && Keyed(ctx, key, AES_DECRYPT)
    requires i + 16 <= input.Length && o + 16 <= output.Length && iv.Length == 16
    requires iv != input && iv != output && (input != output || i == o)
    requires Apart(ctx, t, iv) && Apart(ctx, t, output)
    modifies iv, output
    ensures t.Valid() && Keyed(ctx, key, AES_DECRYPT)
    ensures iv[..] == old(input[i..i + 16])
    ensures output[..] == Splice(old(output[..]), o, XorBytes(Ecb(key, AES_DECRYPT, old(input[i..i + 16])), old(iv[..])))
    ensures input[i + 16..] == old(input[i + 16..])
  {
    hide Tables.Valid, Keyed, Ecb, Splice, XorBytes;
    ghost var b := Ecb(key, AES_DECRYPT, input[i..i + 16]);
    var temp := new bv8[16];
    Copy16(input, i, temp);
    CryptEcb(ctx, t, key, AES_DECRYPT, input, i, output, o);
    SpliceRange(old(output[..]), o, b);
    XorRange(output, o, iv, output, o);
    SpliceOver(old(output[..]), o, b, XorBytes(b, iv[..]));
    SpliceSuffix(old(output[..]), o, XorBytes(b, iv[..]));
    BeyondBlock(input, i, output, o, old(input[..]), old(output[..]));
    assert temp[0..16] == temp[..];
    Copy16(temp, 0, iv);
  }

  /** What CBC makes of n blocks, in the given direction. */
  ghost function Cbc(key: seq<Column>, mode: int, iv: Block, x: seq<bv8>, n: nat): (y: seq<bv8>)
    requires |key| > 0 && |x| == 16 * n
    ensures |y| == |x|
  {
    if mode == AES_DECRYPT then CbcDecrypt(AesBlock(key, AES_DECRYPT), iv, x, n)
    else CbcEncrypt(AesBlock(key, AES_ENCRYPT), iv, x, n)
  }

  /** The iv left behind: the last ciphertext block, or the old iv when there was none. */
  function LastBlock(iv: Block, c: seq<bv8>, n: nat): Block
    requires |c| == 16 * n
  {
    if n == 0 then iv else c[16 * (n - 1)..]
  }

  lemma {:induction false} AesBlockIs(key: seq<Column>, mode: int, x: Block)
    requires |key| > 0
    ensures AesBlock(key, mode)(x) == Ecb(key, mode, x)
  {
    hide Ecb;
  }

  lemma {:induction false} LastBlockOfNone(iv: Block)
    ensures LastBlock(iv, [], 0) == iv
  {
  }

  lemma {:induction false} LastBlockSnoc(iv: Block, c: seq<bv8>, block: Block, n: nat)
    requires |c| == 16 * n
    ensures LastBlock(iv, c + block, n + 1) == block
  {
  }

  /** The next of the remaining blocks; the others behind it stay in the input. */
  method EncryptNext(ctx: Context, t: Tables, ghost key: seq<Column>, iv: array<bv8>, input: array<bv8>, at: nat,
                     output: array<bv8>, o: nat, ghost rest: seq<bv8>)
    requires t.Valid() && |key| > 0 && Keyed(ctx, key, AES_ENCRYPT)
    requires |rest| >= 16 && at + |rest| <= input.Length && input[at..at + |rest|] == rest
    requires o + 16 <= output.Length && iv.Length == 16
    requires iv != input && iv != output && (input != output || at == o)
    requires Apart(ctx, t, iv) && Apart(ctx, t, output)
    modifies iv, output
    ensures t.Valid() && Keyed(ctx, key, AES_ENCRYPT)
    ensures iv[..] == Ecb(key, AES_ENCRYPT, XorBytes(rest[..16], old(iv[..])))
    ensures output[..] == Splice(old(output[..]), o, iv[..])
    ensures input[at + 16..at + |rest|] == rest[16..]
  {
    hide Tables.Valid, Keyed, Ecb, Splice, XorBytes, Apart;
    assert input[at..at + 16] == rest[..16];
    ghost var beyond := input[at + 16..];
    assert beyond[..|rest| - 16] == rest[16..];
    CbcEncryptBlock(ctx, t, key, iv, input, at, output, o);
  }

  method CbcEncryptLoop(ctx: Context, t: Tables, ghost key: seq<Column>, n: nat, iv: array<bv8>,
                        input: array<bv8>, i: nat, output: array<bv8>, o: nat)
    requires t.Valid() && |key| > 0 && Keyed(ctx, key, AES_ENCRYPT)
    requires i + 16 * n <= input.Length && o + 16 * n <= output.Length && iv.Length == 16
    requires iv != input && iv != output && (input != output || i == o)
    requires Apart(ctx, t, iv) && Apart(ctx, t, output)
    modifies iv, output
    ensures var c := CbcEncrypt(AesBlock(key, AES_ENCRYPT), old(iv[..]), old(input[i..i + 16 * n]), n);
            output[..] == Splice(old(output[..]), o, c) && iv[..] == LastBlock(old(iv[..]), c, n)
  {
    hide Tables.Valid, Keyed, Ecb, Splice, XorBytes, CbcEncryptsTo, CbcEncrypt, Apart, AesBlock, LastBlock;
    ghost var e := AesBlock(key, AES_ENCRYPT);
    ghost var src, all, iv0 := input[i..i + 16 * n], output[..], iv[..];
    ghost var total := CbcEncrypt(e, iv0, src, n);
    EncryptsNone(e, iv0, src, n);
    ghost var done: seq<bv8> := [];
    ghost var rest := src;
    SpliceNothing(all, o);
    LastBlockOfNone(iv0);
    for k := 0 to n
      invariant t.Valid() && Keyed(ctx, key, AES_ENCRYPT)
      invariant |done| == 16 * k && output[..] == Splice(all, o, done)
      invariant input[i + 16 * k..i + 16 * n] == rest
      invariant CbcEncryptsTo(e, done, iv[..], rest, n - k, total)
      invariant iv[..] == LastBlock(iv0, done, k)
    {
      CbcEncryptStep(e, done, iv[..], rest, n - k, total);
      AesBlockIs(key, AES_ENCRYPT, XorBytes(rest[..16], iv[..]));
      EncryptNext(ctx, t, key, iv, input, i + 16 * k, output, o + 16 * k, rest);
      SpliceTwice(all, o, done, iv[..]);
      LastBlockSnoc(iv0, done, iv[..], k);
      done := done + iv[..];
      rest := rest[16..];
    }
    EncryptsAll(e, done, iv[..], rest, total);
  }

  /** The next of the remaining blocks; the others behind it stay in the input. */
  method DecryptNext(ctx: Context, t: Tables, ghost key: seq<Column>, iv: array<bv8>, input: array<bv8>, at: nat,
                     output: array<bv8>, o: nat, ghost rest: seq<bv8>)
    requires t.Valid() && |key| > 0 && Keyed(ctx, key, AES_DECRYPT)
    requires |rest| >= 16 && at + |rest| <= input.Length && input[at..at + |rest|] == rest
    requires o + 16 <= output.Length && iv.Length == 16
    requires iv != input && iv != output && (input != output || at == o)
    requires Apart(ctx, t, iv) && Apart(ctx, t, output)
    modifies iv, output
    ensures t.Valid() && Keyed(ctx, key, AES_DECRYPT)
    ensures iv[..] == rest[..16]
    ensures output[..] == Splice(old(output[..]), o, XorBytes(Ecb(key, AES_DECRYPT, rest[..16]), old(iv[..])))
    ensures input[at + 16..at + |rest|] == rest[16..]
  {
    hide Tables.Valid, Keyed, Ecb, Splice, XorBytes, Apart;
    assert input[at..at + 16] == rest[..16];
    ghost var beyond := input[at + 16..];
    assert beyond[..|rest| - 16] == rest[16..];
    CbcDecryptBlock(ctx, t, key, iv, input, at, output, o);
  }

  /** The last of the first k blocks of a chain. */
  function BlockBefore(iv: Block, src: seq<bv8>, k: nat): Block
    requires 16 * k <= |src|
  {
    LastBlock(iv, src[..16 * k], k)
  }

  lemma {:induction false} BlockPassed(iv: Block, src: seq<bv8>, k: nat)
    requires 16 * (k + 1) <= |src|
    ensures src[16 * k..][16..] == src[16 * (k + 1)..]
    ensures BlockBefore(iv, src, k + 1) == src[16 * k..][..16]
  {
  }

  lemma {:induction false} BlocksPassed(iv: Block, src: seq<bv8>, n: nat)
    requires |src| == 16 * n
    ensures src[0..] == src && src[16 * n..] == []
    ensures BlockBefore(iv, src, 0) == iv && BlockBefore(iv, src, n) == LastBlock(iv, src, n)
  {
    assert src[..16 * n] == src;
  }

  method CbcDecryptLoop(ctx: Context, t: Tables, ghost key: seq<Column>, n: nat, iv: array<bv8>,
                        input: array<bv8>, i: nat, output: array<bv8>, o: nat)
    requires t.Valid() && |key| > 0 && Keyed(ctx, key, AES_DECRYPT)
    requires i + 16 * n <= input.Length && o + 16 * n <= output.Length && iv.Length == 16
    requires iv != input && iv != output && (input != output || i == o)
    requires Apart(ctx, t, iv) && Apart(ctx, t, output)
    modifies iv, output
    ensures output[..] == Splice(old(output[..]), o, CbcDecrypt(AesBlock(key, AES_DECRYPT), old(iv[..]), old(input[i..i + 16 * n]), n))
    ensures iv[..] == LastBlock(old(iv[..]), old(input[i..i + 16 * n]), n)
  {
    hide Tables.Valid, Keyed, Ecb, Splice, XorBytes, CbcDecryptsTo, CbcDecrypt, Apart, AesBlock, LastBlock, BlockBefore;
    ghost var d := AesBlock(key, AES_DECRYPT);
    ghost var src, all, iv0 := input[i..i + 16 * n], output[..], iv[..];
    ghost var total := CbcDecrypt(d, iv0, src, n);
    DecryptsNone(d, iv0, src, n);
    ghost var done: seq<bv8> := [];
    ghost var rest := src;
    SpliceNothing(all, o);
    BlocksPassed(iv0, src, n);
    for k := 0 to n
      invariant t.Valid() && Keyed(ctx, key, AES_DECRYPT)
      invariant |done| == 16 * k && output[..] == Splice(all, o, done)
      invariant rest == src[16 * k..] && input[i + 16 * k..i + 16 * n] == rest
      invariant CbcDecryptsTo(d, done, iv[..], rest, n - k, total)
      invariant iv[..] == BlockBefore(iv0, src, k)
    {
      CbcDecryptStep(d, done, iv[..], rest, n - k, total);
      ghost var block := XorBytes(Ecb(key, AES_DECRYPT, rest[..16]), iv[..]);
      AesBlockIs(key, AES_DECRYPT, rest[..16]);
      BlockPassed(iv0, src, k);
      DecryptNext(ctx, t, key, iv, input, i + 16 * k, output, o + 16 * k, rest);
      SpliceTwice(all, o, done, block);
      done := done + block;
      rest := rest[16..];
    }
    DecryptsAll(d, done, iv[..], rest, total);
  }

  lemma {:induction false} EncryptsNone(e: Block -> Block, iv: Block, src: seq<bv8>, n: nat)
    requires |src| == 16 * n
    ensures CbcEncryptsTo(e, [], iv, src, n, CbcEncrypt(e, iv, src, n))
  {
  }

  lemma {:induction false} EncryptsAll(e: Block -> Block, done: seq<bv8>, iv: Block, rest: seq<bv8>, total: seq<bv8>)
    requires CbcEncryptsTo(e, done, iv, rest, 0, total)
    ensures done == total
  {
  }

  lemma {:induction false} DecryptsNone(d: Block -> Block, iv: Block, src: seq<bv8>, n: nat)
    requires |src| == 16 * n
    ensures CbcDecryptsTo(d, [], iv, src, n, CbcDecrypt(d, iv, src, n))
  {
  }

  lemma {:induction false} DecryptsAll(d: Block -> Block, done: seq<bv8>, iv: Block, rest: seq<bv8>, total: seq<bv8>)
    requires CbcDecryptsTo(d, done, iv, rest, 0, total)
    ensures done == total
  {
  }

  /** aes_crypt_cbc on a multiple of 16 bytes; iv is left ready to continue the chain. */
  method CryptCbc(ctx: Context, t: Tables, ghost key: seq<Column>, mode: int, length: nat, iv: array<bv8>,
                  input: array<bv8>, i: nat, output: array<bv8>, o: nat)
    requires t.Valid() && |key| > 0 && Keyed(ctx, key, mode) && mode in {AES_ENCRYPT, AES_DECRYPT}
    requires length % 16 == 0 && i + length <= input.Length && o + length <= output.Length && iv.Length == 16
    requires iv != input && iv != output && (input != output || i == o)
    requires Apart(ctx, t, iv) && Apart(ctx, t, output)
    modifies iv, output
    ensures output[..] == Splice(old(output[..]), o, Cbc(key, mode, old(iv[..]), old(input[i..i + length]), length / 16))
    ensures var c := if mode == AES_DECRYPT then old(input[i..i + length]) else output[o..o + length];
            iv[..] == LastBlock(old(iv[..]), c, length / 16)
  {
    hide Tables.Valid, Keyed, Ecb, Splice, LastBlock, CbcEncrypt, CbcDecrypt;
    assert 16 * (length / 16) == length;
    if mode == AES_DECRYPT {
      CbcDecryptLoop(ctx, t, key, length / 16, iv, input, i, output, o);
    } else {
      ghost var c := CbcEncrypt(AesBlock(key, AES_ENCRYPT), iv[..], input[i..i + length], length / 16);
      CbcEncryptLoop(ctx, t, key, length / 16, iv, input, i, output, o);
      SpliceRange(old(output[..]), o, c);
    }
  }

  /** CBC decryption under AES undoes CBC encryption, for every key, iv and number of blocks. */
  lemma {:induction false} CbcRoundTrip(key: seq<Column>, iv: Block, p: seq<bv8>, n: nat)
    requires |key| > 0 && |p| == 16 * n
    ensures Cbc(key, AES_DECRYPT, iv, Cbc(key, AES_ENCRYPT, iv, p, n), n) == p
  {
    hide AesBlock;
    AesUndoes(key);
    CbcInverts(AesBlock(key, AES_ENCRYPT), AesBlock(key, AES_DECRYPT), iv, p, n);
  }

  // ----- CFB128

  /** At the start of a block the iv is encrypted in place; either way it then masks the next byte. */
  method MaskIv(ctx: Context, t: Tables, ghost key: seq<Column>, n: nat, iv: array<bv8>)
    requires t.Valid() && |key| > 0 && Keyed(ctx, key, AES_ENCRYPT) && n < 16 && iv.Length == 16
    requires Apart(ctx, t, iv)
    modifies iv
    ensures t.Valid() && Keyed(ctx, key, AES_ENCRYPT)
    ensures iv[..] == Mask(AesBlock(key, AES_ENCRYPT), Chain(old(iv[..]), n))
  {
    hide Tables.Valid, Keyed, Ecb, Splice;
    if n == 0 {
      ghost var b := Ecb(key, AES_ENCRYPT, iv[..]);
      assert iv[0..16] == iv[..];
      CryptEcb(ctx, t, key, AES_ENCRYPT, iv, 0, iv, 0);
      SpliceWhole(old(iv[..]), b);
    }
  }

  method CfbEncryptByte(ctx: Context, t: Tables, ghost key: seq<Column>, n: nat, iv: array<bv8>, x: bv8)
      returns (c: bv8, m: nat)
    requires t.Valid() && |key| > 0 && Keyed(ctx, key, AES_ENCRYPT) && n < 16 && iv.Length == 16
    requires Apart(ctx, t, iv)
    modifies iv
    ensures t.Valid() && Keyed(ctx, key, AES_ENCRYPT)
    ensures var e, s := AesBlock(key, AES_ENCRYPT), Chain(old(iv[..]), n);
            c == XorByte(Mask(e, s)[n], x) && m < 16 && Chain(iv[..], m) == Next(e, s, c)
  {
    hide Tables.Valid, Keyed, AesBlock, XorByte, Mask;
    MaskIv(ctx, t, key, n, iv);
    c := XorByte(iv[n], x);
    iv[n] := c;
    m := (n + 1) % 16;
  }

  method CfbDecryptByte(ctx: Context, t: Tables, ghost key: seq<Column>, n: nat, iv: array<bv8>, c: bv8)
      returns (p: bv8, m: nat)
    requires t.Valid() && |key| > 0 && Keyed(ctx, key, AES_ENCRYPT) && n < 16 && iv.Length == 16
    requires Apart(ctx, t, iv)
    modifies iv
    ensures t.Valid() && Keyed(ctx, key, AES_ENCRYPT)
    ensures var e, s := AesBlock(key, AES_ENCRYPT), Chain(old(iv[..]), n);
            p == XorByte(c, Mask(e, s)[n]) && m < 16 && Chain(iv[..], m) == Next(e, s, c)
  {
    hide Tables.Valid, Keyed, AesBlock, XorByte, Mask;
    MaskIv(ctx, t, key, n, iv);
    p := XorByte(c, iv[n]);
    iv[n] := c;
    m := (n + 1) % 16;
  }

  method CfbEncryptLoop(ctx: Context, t: Tables, ghost key: seq<Column>, length: nat, ivOff: nat, iv: array<bv8>,
                        input: array<bv8>, i: nat, output: array<bv8>, o: nat) returns (n: nat)
    requires t.Valid() && |key| > 0 && Keyed(ctx, key, AES_ENCRYPT)
    requires ivOff < 16 && i + length <= input.Length && o + length <= output.Length && iv.Length == 16
    requires iv != input && iv != output && (input != output || i == o)
    requires Apart(ctx, t, iv) && Apart(ctx, t, output)
    modifies iv, output
    ensures var e, s := AesBlock(key, AES_ENCRYPT), Chain(old(iv[..]), ivOff);
            var c := CfbEncrypt(e, s, old(input[i..i + length]));
            output[..] == Splice(old(output[..]), o, c) && n < 16 && Chain(iv[..], n) == CfbState(e, s, c)
  {
    hide Tables.Valid, Keyed, AesBlock, Splice, XorByte, CfbEncryptsTo, Mask, Next;
    n := ivOff;
    ghost var e, s0 := AesBlock(key, AES_ENCRYPT), Chain(iv[..], ivOff);
    ghost var src, all := input[i..i + length], output[..];
    ghost var total := CfbEncrypt(e, s0, src);
    ghost var done: seq<bv8> := [];
    ghost var rest := src;
    SpliceNothing(all, o);
    CfbEncryptStart(e, s0, src);
    for k := 0 to length
      invariant t.Valid() && Keyed(ctx, key, AES_ENCRYPT) && n < 16
      invariant |done| == k && output[..] == Splice(all, o, done)
      invariant input[i + k..i + length] == rest
      invariant CfbEncryptsTo(e, s0, done, Chain(iv[..], n), rest, total)
    {
      CfbEncryptStep(e, s0, done, Chain(iv[..], n), rest, total);
      var c;
      c, n := CfbEncryptByte(ctx, t, key, n, iv, input[i + k]);
      output[o + k] := c;
      SpliceOne(all, o, done, c);
      done := done + [c];
      rest := rest[1..];
    }
    CfbEncryptEnd(e, s0, done, Chain(iv[..], n), rest, total);
  }

  lemma {:induction false} CfbEncryptStart(e: Block -> Block, s0: Chain, src: seq<bv8>)
    requires s0.Valid()
    ensures CfbEncryptsTo(e, s0, [], s0, src, CfbEncrypt(e, s0, src))
  {
  }

  lemma {:induction false} CfbEncryptEnd(e: Block -> Block, s0: Chain, done: seq<bv8>, s: Chain, rest: seq<bv8>,
          total: seq<bv8>)
    requires CfbEncryptsTo(e, s0, done, s, rest, total) && rest == []
    ensures done == total && s == CfbState(e, s0, total)
  {
  }

  lemma {:induction false} HeadMoves(seen: seq<bv8>, rest: seq<bv8>)
    requires rest != []
    ensures (seen + [rest[0]]) + rest[1..] == seen + rest
  {
  }

  method CfbDecryptLoop(ctx: Context, t: Tables, ghost key: seq<Column>, length: nat, ivOff: nat, iv: array<bv8>,
                        input: array<bv8>, i: nat, output: array<bv8>, o: nat) returns (n: nat)
    requires t.Valid() && |key| > 0 && Keyed(ctx, key, AES_ENCRYPT)
    requires ivOff < 16 && i + length <= input.Length && o + length <= output.Length && iv.Length == 16
    requires iv != input && iv != output && (input != output || i == o)
    requires Apart(ctx, t, iv) && Apart(ctx, t, output)
    modifies iv, output
    ensures var e, s, c := AesBlock(key, AES_ENCRYPT), Chain(old(iv[..]), ivOff), old(input[i..i + length]);
            output[..] == Splice(old(output[..]), o, CfbDecrypt(e, s, c)) && n < 16 && Chain(iv[..], n) == CfbState(e, s, c)
  {
    hide Tables.Valid, Keyed, AesBlock, Splice, XorByte, CfbDecryptsTo, Mask, Next, CfbDecrypt, CfbState;
    n := ivOff;
    ghost var e, s0 := AesBlock(key, AES_ENCRYPT), Chain(iv[..], ivOff);
    ghost var src, all := input[i..i + length], output[..];
    ghost var total := CfbDecrypt(e, s0, src);
    ghost var done: seq<bv8> := [];
    ghost var seen, rest := [], src;
    SpliceNothing(all, o);
    CfbDecryptStart(e, s0, src);
    for k := 0 to length
      invariant t.Valid() && Keyed(ctx, key, AES_ENCRYPT) && n < 16
      invariant |done| == k && output[..] == Splice(all, o, done)
      invariant input[i + k..i + length] == rest && seen + rest == src
      invariant CfbDecryptsTo(e, s0, seen, done, Chain(iv[..], n), rest, total)
    {
      CfbDecryptStep(e, s0, seen, done, Chain(iv[..], n), rest, total);
      var p;
      p, n := CfbDecryptByte(ctx, t, key, n, iv, input[i + k]);
      output[o + k] := p;
      SpliceOne(all, o, done, p);
      done := done + [p];
      HeadMoves(seen, rest);
      seen := seen + [rest[0]];
      rest := rest[1..];
    }
    assert seen == src;
    CfbDecryptEnd(e, s0, seen, done, Chain(iv[..], n), rest, total);
  }

  lemma {:induction false} CfbDecryptStart(e: Block -> Block, s0: Chain, src: seq<bv8>)
    requires s0.Valid()
    ensures CfbDecryptsTo(e, s0, [], [], s0, src, CfbDecrypt(e, s0, src))
  {
  }

  lemma {:induction false} CfbDecryptEnd(e: Block -> Block, s0: Chain, seen: seq<bv8>, done: seq<bv8>, s: Chain,
          rest: seq<bv8>, total: seq<bv8>)
    requires CfbDecryptsTo(e, s0, seen, done, s, rest, total) && rest == []
    ensures done == total && s == CfbState(e, s0, seen)
  {
  }

  /** The output of CFB in the given direction. */
  ghost function Cfb(key: seq<Column>, mode: int, s: Chain, x: seq<bv8>): (y: seq<bv8>)
    requires |key| > 0 && s.Valid()
    ensures |y| == |x|
  {
    if mode == AES_DECRYPT then CfbDecrypt(AesBlock(key, AES_ENCRYPT), s, x) else CfbEncrypt(AesBlock(key, AES_ENCRYPT), s, x)
  }

  /** aes_crypt_cfb128: any length, any starting offset; iv and the returned offset continue the stream. */
  method CryptCfb128(ctx: Context, t: Tables, ghost key: seq<Column>, mode: int, length: nat, ivOff: nat,
          iv: array<bv8>,
                     input: array<bv8>, i: nat, output: array<bv8>, o: nat) returns (n: nat)
    requires t.Valid() && |key| > 0 && Keyed(ctx, key, AES_ENCRYPT)
    requires ivOff < 16 && i + length <= input.Length && o + length <= output.Length && iv.Length == 16
    requires iv != input && iv != output && (input != output || i == o)
    requires Apart(ctx, t, iv) && Apart(ctx, t, output)
    modifies iv, output
    ensures n < 16
    ensures var s, x := Chain(old(iv[..]), ivOff), old(input[i..i + length]);
            var y := Cfb(key, mode, s, x);
            && output[..] == Splice(old(output[..]), o, y)
            && Chain(iv[..], n) == CfbState(AesBlock(key, AES_ENCRYPT), s, if mode == AES_DECRYPT then x else y)
  {
    hide Tables.Valid, Keyed, AesBlock, Splice, CfbEncrypt, CfbDecrypt, CfbState;
    if mode == AES_DECRYPT {
      n := CfbDecryptLoop(ctx, t, key, length, ivOff, iv, input, i, output, o);
    } else {
      n := CfbEncryptLoop(ctx, t, key, length, ivOff, iv, input, i, output, o);
    }
  }

  /** CFB decryption undoes encryption from the same iv and offset, and both leave the same iv and offset. */
  lemma {:induction false} CfbRoundTrip(key: seq<Column>, s: Chain, p: seq<bv8>)
    requires |key| > 0 && s.Valid()
    ensures Cfb(key, AES_DECRYPT, s, Cfb(key, AES_ENCRYPT, s, p)) == p
  {
    hide AesBlock, CfbEncrypt, CfbDecrypt;
    CfbInverts(AesBlock(key, AES_ENCRYPT), s, p);
  }

  /** Two calls on the parts of an input give what one call on the whole gives. */
  lemma {:induction false} CfbTwoCalls(key: seq<Column>, mode: int, s: Chain, x: seq<bv8>, y: seq<bv8>)
    requires |key| > 0 && s.Valid()
    ensures var e, x' := AesBlock(key, AES_ENCRYPT), Cfb(key, mode, s, x);
            Cfb(key, mode, s, x + y) == x' + Cfb(key, mode, CfbState(e, s, if mode == AES_DECRYPT then x else x'), y)
  {
    hide AesBlock, CfbEncrypt, CfbDecrypt, CfbState;
    CfbEncryptSplits(AesBlock(key, AES_ENCRYPT), s, x, y);
    CfbDecryptSplits(AesBlock(key, AES_ENCRYPT), s, x, y);
  }

  /** From offset 0 the output is the CFB128 mode of section 6.3 of NIST SP 800-38A under AES. */
  lemma {:induction false} CfbIsStandard(key: seq<Column>, iv: Block, p: seq<bv8>)
    requires |key| > 0
    ensures Cfb(key, AES_ENCRYPT, Chain(iv, 0), p) == CfbReference(AesBlock(key, AES_ENCRYPT), iv, p)
  {
    hide AesBlock, CfbEncrypt, CfbReference;
    CfbIsReference(AesBlock(key, AES_ENCRYPT), iv, p);
  }
}
