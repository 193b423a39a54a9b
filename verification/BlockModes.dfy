/** The CBC and CFB128 modes of NIST SP 800-38A over an arbitrary block function. */
module BlockModes {
  import opened Bytes

  type Block = b: seq<bv8> | |b| == 16 witness seq(16, i => 0)

  // ----- CBC (section 6.2), on n blocks, over any block function

  ghost function CbcEncrypt(e: Block -> Block, iv: Block, p: seq<bv8>, n: nat): (c: seq<bv8>)
    requires |p| == 16 * n
    ensures |c| == |p|
    decreases n
  {
    if n == 0 then [] else
      var block := e(XorBytes(p[..16], iv));
      block + CbcEncrypt(e, block, p[16..], n - 1)
  }

  ghost function CbcDecrypt(d: Block -> Block, iv: Block, c: seq<bv8>, n: nat): (p: seq<bv8>)
    requires |c| == 16 * n
    ensures |p| == |c|
    decreases n
  {
    if n == 0 then [] else
      XorBytes(d(c[..16]), iv) + CbcDecrypt(d, c[..16], c[16..], n - 1)
  }

  ghost predicate Undoes(d: Block -> Block, e: Block -> Block) {
    forall b: Block :: d(e(b)) == b
  }

  lemma {:induction false} CbcInvertsBlock(e: Block -> Block, d: Block -> Block, iv: Block, first: Block,
          rest: seq<bv8>, n: nat)
    requires Undoes(d, e) && |rest| == 16 * n
    ensures var block := e(XorBytes(first, iv));
            CbcDecrypt(d, iv, block + rest, n + 1) == first + CbcDecrypt(d, block, rest, n)
  {
  }

  lemma {:induction false} CbcEncryptUnfolds(e: Block -> Block, iv: Block, p: seq<bv8>, n: nat)
    requires |p| == 16 * n && n > 0
    ensures var block := e(XorBytes(p[..16], iv)); CbcEncrypt(e, iv, p, n) == block + CbcEncrypt(e, block, p[16..], n - 1)
  {
    hide XorBytes;
  }

  /** Every block is the encryption of its plaintext block XORed with the ciphertext block before, the first with iv. */
  lemma {:induction false} CbcChains(e: Block -> Block, iv: Block, p: seq<bv8>, n: nat, j: nat)
    requires |p| == 16 * n && j < n
    ensures var c := CbcEncrypt(e, iv, p, n);
            c[16 * j..16 * j + 16] == e(XorBytes(p[16 * j..16 * j + 16], if j == 0 then iv else c[16 * j - 16..16 * j]))
    decreases n
  {
    hide CbcEncrypt, XorBytes;
    CbcEncryptUnfolds(e, iv, p, n);
    var block := e(XorBytes(p[..16], iv));
    var (c, rest) := (CbcEncrypt(e, iv, p, n), CbcEncrypt(e, block, p[16..], n - 1));
    if j > 0 {
      CbcChains(e, block, p[16..], n - 1, j - 1);
      assert c[16..] == rest;
      SliceOfSuffix(c, 16, 16 * (j - 1), 16 * (j - 1) + 16);
      SliceOfSuffix(p, 16, 16 * (j - 1), 16 * (j - 1) + 16);
      if j > 1 {
        SliceOfSuffix(c, 16, 16 * (j - 1) - 16, 16 * (j - 1));
      }
    }
  }

  lemma {:induction false} CbcInverts(e: Block -> Block, d: Block -> Block, iv: Block, p: seq<bv8>, n: nat)
    requires |p| == 16 * n && Undoes(d, e)
    ensures CbcDecrypt(d, iv, CbcEncrypt(e, iv, p, n), n) == p
    decreases n
  {
    if n == 0 {
    } else {
      hide *;
      var (first, rest) := (p[..16], p[16..]);
      assert p == first + rest;
      var block := e(XorBytes(first, iv));
      var c := CbcEncrypt(e, block, rest, n - 1);
      CbcEncryptUnfolds(e, iv, p, n);
      CbcInvertsBlock(e, d, iv, first, c, n - 1);
      CbcInverts(e, d, block, rest, n - 1);
    }
  }

  lemma {:induction false} Undone(d: Block -> Block, e: Block -> Block, x: Block)
    requires Undoes(d, e)
    ensures d(e(x)) == x
  {
  }

  /** A run of CBC encryption part way through: the blocks done, and what remains from this iv. */
  ghost predicate CbcEncryptsTo(e: Block -> Block, done: seq<bv8>, iv: Block, rest: seq<bv8>, m: nat, total: seq<bv8>) {
    |rest| == 16 * m && done + CbcEncrypt(e, iv, rest, m) == total
  }

  lemma {:induction false} CbcEncryptStep(e: Block -> Block, done: seq<bv8>, iv: Block, rest: seq<bv8>, m: nat,
          total: seq<bv8>)
    requires CbcEncryptsTo(e, done, iv, rest, m, total) && m > 0
    ensures var block := e(XorBytes(rest[..16], iv)); CbcEncryptsTo(e, done + block, block, rest[16..], m - 1, total)
  {
  }

  ghost predicate CbcDecryptsTo(d: Block -> Block, done: seq<bv8>, iv: Block, rest: seq<bv8>, m: nat, total: seq<bv8>) {
    |rest| == 16 * m && done + CbcDecrypt(d, iv, rest, m) == total
  }

  lemma {:induction false} CbcDecryptStep(d: Block -> Block, done: seq<bv8>, iv: Block, rest: seq<bv8>, m: nat,
          total: seq<bv8>)
    requires CbcDecryptsTo(d, done, iv, rest, m, total) && m > 0
    ensures CbcDecryptsTo(d, done + XorBytes(d(rest[..16]), iv), rest[..16], rest[16..], m - 1, total)
  {
  }

  // ----- CFB128 (section 6.3), one byte at a time

  /** The chaining block and the position in it of the next byte. */
  datatype Chain = Chain(iv: Block, n: nat) {
    ghost predicate Valid() {
      n < 16
    }
  }

  /** The block that masks the next byte: a fresh block is started at position 0. */
  ghost function Mask(e: Block -> Block, s: Chain): Block {
    if s.n == 0 then e(s.iv) else s.iv
  }

  /** Every ciphertext byte takes its place in the chaining block. */
  ghost function Next(e: Block -> Block, s: Chain, c: bv8): (t: Chain)
    requires s.Valid()
    ensures t.Valid()
  {
    Chain(Mask(e, s)[s.n := c], (s.n + 1) % 16)
  }

  ghost function CfbState(e: Block -> Block, s: Chain, c: seq<bv8>): (t: Chain)
    requires s.Valid()
    ensures t.Valid()
    decreases |c|
  {
    if c == [] then s else CfbState(e, Next(e, s, c[0]), c[1..])
  }

  ghost function CfbEncrypt(e: Block -> Block, s: Chain, p: seq<bv8>): (c: seq<bv8>)
    requires s.Valid()
    ensures |c| == |p|
    decreases |p|
  {
    if p == [] then [] else
      var c := XorByte(Mask(e, s)[s.n], p[0]);
      [c] + CfbEncrypt(e, Next(e, s, c), p[1..])
  }

  ghost function CfbDecrypt(e: Block -> Block, s: Chain, c: seq<bv8>): (p: seq<bv8>)
    requires s.Valid()
    ensures |p| == |c|
    decreases |c|
  {
    if c == [] then [] else
      [XorByte(c[0], Mask(e, s)[s.n])] + CfbDecrypt(e, Next(e, s, c[0]), c[1..])
  }

  /** Decryption undoes encryption from the same chaining state, whatever the offset and the length. */
  lemma {:induction false} CfbInverts(e: Block -> Block, s: Chain, p: seq<bv8>)
    requires s.Valid()
    ensures CfbDecrypt(e, s, CfbEncrypt(e, s, p)) == p
    decreases |p|
  {
    if p == [] {
    } else {
      var m := Mask(e, s)[s.n];
      var c := XorByte(m, p[0]);
      XorByteTwice(m, p[0]);
      XorByteTwice(p[0], m);
      hide Mask, Next, XorByte;
      CfbInverts(e, Next(e, s, c), p[1..]);
      assert CfbEncrypt(e, s, p)[1..] == CfbEncrypt(e, Next(e, s, c), p[1..]);
    }
  }

  lemma {:induction false} CfbEncryptCons(e: Block -> Block, s: Chain, x: bv8, rest: seq<bv8>)
    requires s.Valid()
    ensures var c := XorByte(Mask(e, s)[s.n], x);
            CfbEncrypt(e, s, [x] + rest) == [c] + CfbEncrypt(e, Next(e, s, c), rest)
  {
  }

  lemma {:induction false} CfbStateCons(e: Block -> Block, s: Chain, c: bv8, rest: seq<bv8>)
    requires s.Valid()
    ensures CfbState(e, s, [c] + rest) == CfbState(e, Next(e, s, c), rest)
  {
  }

  /** A call may be split anywhere: the second call continues from the state the first one leaves. */
  lemma {:induction false} CfbEncryptSplits(e: Block -> Block, s: Chain, p: seq<bv8>, q: seq<bv8>)
    requires s.Valid()
    ensures var c := CfbEncrypt(e, s, p);
            CfbEncrypt(e, s, p + q) == c + CfbEncrypt(e, CfbState(e, s, c), q)
    decreases |p|
  {
    if p == [] {
      assert p + q == q;
    } else {
      hide Mask, Next, XorByte, CfbEncrypt, CfbState;
      var (x, r) := (p[0], p[1..]);
      var c := XorByte(Mask(e, s)[s.n], x);
      var t := Next(e, s, c);
      assert p == [x] + r;
      assert p + q == [x] + (r + q);
      CfbEncryptCons(e, s, x, r);
      CfbEncryptCons(e, s, x, r + q);
      CfbEncryptSplits(e, t, r, q);
      CfbStateCons(e, s, c, CfbEncrypt(e, t, r));
      Associate([c], CfbEncrypt(e, t, r), CfbEncrypt(e, CfbState(e, t, CfbEncrypt(e, t, r)), q));
    }
  }

  lemma {:induction false} CfbStateSplits(e: Block -> Block, s: Chain, c: seq<bv8>, d: seq<bv8>)
    requires s.Valid()
    ensures CfbState(e, s, c + d) == CfbState(e, CfbState(e, s, c), d)
    decreases |c|
  {
    hide Mask, Next;
    if c == [] {
      assert c + d == d;
    } else {
      CfbStateSplits(e, Next(e, s, c[0]), c[1..], d);
      assert (c + d)[1..] == c[1..] + d;
    }
  }

  lemma {:induction false} CfbDecryptSplits(e: Block -> Block, s: Chain, c: seq<bv8>, d: seq<bv8>)
    requires s.Valid()
    ensures CfbDecrypt(e, s, c + d) == CfbDecrypt(e, s, c) + CfbDecrypt(e, CfbState(e, s, c), d)
    decreases |c|
  {
    hide Mask, Next, XorByte;
    if c == [] {
      assert c + d == d;
    } else {
      CfbDecryptSplits(e, Next(e, s, c[0]), c[1..], d);
      assert (c + d)[1..] == c[1..] + d;
    }
  }

  /** The mode as section 6.3 writes it for 128-bit segments, with a last segment that may be shorter. */
  ghost function CfbReference(e: Block -> Block, iv: Block, p: seq<bv8>): (c: seq<bv8>)
    ensures |c| == |p|
    decreases |p|
  {
    if |p| <= 16 then XorBytes(p, e(iv)) else
      var c: Block := XorBytes(p[..16], e(iv));
      c + CfbReference(e, c, p[16..])
  }

  lemma {:induction false} XorBytesCons(x: bv8, r: seq<bv8>, y: bv8, k: seq<bv8>)
    requires |r| <= |k|
    ensures XorBytes([x] + r, [y] + k) == [XorByte(x, y)] + XorBytes(r, k)
  {
    hide XorByte;
  }

  lemma {:induction false} MaskedCons(k: Block, n: nat, c: bv8, rest: seq<bv8>)
    requires n < 16
    ensures k[n..] == [k[n]] + k[n + 1..] && k[n := c][n + 1..] == k[n + 1..]
    ensures k[n := c][..n + 1] + rest == k[..n] + ([c] + rest)
  {
  }

  lemma {:induction false} NextWithin(e: Block -> Block, s: Chain, k: Block, c: bv8)
    requires s.Valid() && Mask(e, s) == k
    ensures Next(e, s, c) == Chain(k[s.n := c], (s.n + 1) % 16)
    ensures s.n < 15 ==> Mask(e, Next(e, s, c)) == k[s.n := c]
  {
  }

  /** With n bytes of a block done, the bytes that fit are masked by the rest of k, and a full block
      leaves the ciphertext block as the next iv. */
  lemma {:induction false} CfbWithinBlock(e: Block -> Block, s: Chain, k: Block, p: seq<bv8>)
    requires s.Valid() && p != [] && s.n + |p| <= 16 && Mask(e, s) == k
    ensures CfbEncrypt(e, s, p) == XorBytes(p, k[s.n..])
    ensures s.n + |p| == 16 ==> CfbState(e, s, CfbEncrypt(e, s, p)) == Chain(k[..s.n] + CfbEncrypt(e, s, p), 0)
    decreases |p|
  {
    hide XorByte, XorBytes, Mask, Next, CfbEncrypt, CfbState;
    var (x, r) := (p[0], p[1..]);
    var c := XorByte(k[s.n], x);
    var t := Next(e, s, c);
    assert p == [x] + r;
    XorByteTwice(k[s.n], x);
    CfbEncryptCons(e, s, x, r);
    NextWithin(e, s, k, c);
    var rest := CfbEncrypt(e, t, r);
    MaskedCons(k, s.n, c, rest);
    XorBytesCons(x, r, k[s.n], k[s.n + 1..]);
    CfbStateCons(e, s, c, rest);
    if r == [] {
      CfbNothing(e, t, k[s.n + 1..]);
    } else {
      CfbWithinBlock(e, t, k[s.n := c], r);
    }
  }

  lemma {:induction false} CfbNothing(e: Block -> Block, s: Chain, k: seq<bv8>)
    requires s.Valid()
    ensures CfbEncrypt(e, s, []) == [] && CfbState(e, s, []) == s && XorBytes([], k) == []
  {
  }

  /** From the start of a block the byte-by-byte mode is the mode of section 6.3. */
  lemma {:induction false} CfbIsReference(e: Block -> Block, iv: Block, p: seq<bv8>)
    ensures CfbEncrypt(e, Chain(iv, 0), p) == CfbReference(e, iv, p)
    decreases |p|
  {
    var s := Chain(iv, 0);
    assert Mask(e, s) == e(iv) && e(iv)[0..] == e(iv);
    hide XorBytes, Mask, Next, CfbEncrypt, CfbState;
    if p == [] {
      CfbNothing(e, s, e(iv));
    } else if |p| <= 16 {
      CfbWithinBlock(e, s, e(iv), p);
    } else {
      var c: Block := CfbEncrypt(e, s, p[..16]);
      CfbWithinBlock(e, s, e(iv), p[..16]);
      assert e(iv)[..0] + c == c;
      CfbEncryptSplits(e, s, p[..16], p[16..]);
      assert p == p[..16] + p[16..];
      CfbIsReference(e, c, p[16..]);
    }
  }

  // ----- CFB part way through a call

  ghost predicate CfbEncryptsTo(e: Block -> Block, s0: Chain, done: seq<bv8>, s: Chain, rest: seq<bv8>,
          total: seq<bv8>) {
    s0.Valid() && s.Valid() && s == CfbState(e, s0, done) && done + CfbEncrypt(e, s, rest) == total
  }

  lemma {:induction false} CfbEncryptStep(e: Block -> Block, s0: Chain, done: seq<bv8>, s: Chain, rest: seq<bv8>,
          total: seq<bv8>)
    requires CfbEncryptsTo(e, s0, done, s, rest, total) && rest != []
    ensures var c := XorByte(Mask(e, s)[s.n], rest[0]);
            CfbEncryptsTo(e, s0, done + [c], Next(e, s, c), rest[1..], total)
  {
    hide Mask, Next, XorByte;
    var c := XorByte(Mask(e, s)[s.n], rest[0]);
    CfbStateSplits(e, s0, done, [c]);
    assert CfbState(e, s, [c]) == CfbState(e, Next(e, s, c), []);
    assert CfbEncrypt(e, s, rest) == [c] + CfbEncrypt(e, Next(e, s, c), rest[1..]);
    hide CfbEncrypt, CfbState;
    Associate(done, [c], CfbEncrypt(e, Next(e, s, c), rest[1..]));
  }

  ghost predicate CfbDecryptsTo(e: Block -> Block, s0: Chain, seen: seq<bv8>, done: seq<bv8>, s: Chain,
          rest: seq<bv8>, total: seq<bv8>) {
    s0.Valid() && s.Valid() && s == CfbState(e, s0, seen) && done + CfbDecrypt(e, s, rest) == total
  }

  lemma {:induction false} CfbDecryptStep(e: Block -> Block, s0: Chain, seen: seq<bv8>, done: seq<bv8>, s: Chain,
          rest: seq<bv8>, total: seq<bv8>)
    requires CfbDecryptsTo(e, s0, seen, done, s, rest, total) && rest != []
    ensures var c := rest[0];
            CfbDecryptsTo(e, s0, seen + [c], done + [XorByte(c, Mask(e, s)[s.n])], Next(e, s, c), rest[1..], total)
  {
    hide Mask, Next, XorByte;
    var c := rest[0];
    var p := XorByte(c, Mask(e, s)[s.n]);
    CfbStateSplits(e, s0, seen, [c]);
    assert CfbState(e, s, [c]) == CfbState(e, Next(e, s, c), []);
    assert CfbDecrypt(e, s, rest) == [p] + CfbDecrypt(e, Next(e, s, c), rest[1..]);
    hide CfbDecrypt, CfbState;
    Associate(done, [p], CfbDecrypt(e, Next(e, s, c), rest[1..]));
  }
}
