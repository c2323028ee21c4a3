/** Cipher block chaining over an abstract 16-byte block permutation, as in section 6.2 of
    NIST SP 800-38A, applied to everything behind the header and the vector of a secure frame. */
module Crypt {
  import opened MachineTypes
  import opened Gf2

  const BLOCK := 16
  const HEADER := 4
  const CLEAR := 20    // header and initialization vector
  const SECURE := 228

  /** The block cipher under one key. */
  datatype BlockCipher = BlockCipher(encrypt: seq<uint8> -> seq<uint8>, decrypt: seq<uint8> -> seq<uint8>)

  /** All that is known of the block cipher: decryption inverts encryption. */
  ghost predicate Invertible(c: BlockCipher) {
    forall b: seq<uint8> {:trigger c.encrypt(b)} {:trigger c.decrypt(b)} | |b| == BLOCK ::
      |c.encrypt(b)| == BLOCK && |c.decrypt(b)| == BLOCK && c.decrypt(c.encrypt(b)) == b
  }

  function XorByte(a: uint8, b: uint8): uint8 {
    assert Pow2(8) == 0x100; XorBound(a, b, 8);
    Xor(a, b)
  }

  function XorBytes(a: seq<uint8>, b: seq<uint8>): (s: seq<uint8>)
    requires |a| == |b|
    ensures |s| == |a|
  {
    seq(|a|, i requires 0 <= i < |a| => XorByte(a[i], b[i]))
  }

  /** The sum of two strings, bit by bit. */
  lemma {:induction false} XorBytesBits(a: seq<uint8>, b: seq<uint8>, i: nat, k: nat)
    requires |a| == |b| && i < |a|
    ensures BitAt(XorBytes(a, b)[i], k) <==> BitAt(a[i], k) != BitAt(b[i], k)
  {
    XorBits(a[i], b[i], k);
    hide Xor;
  }

  lemma {:induction false} XorBytesCancels(a: seq<uint8>, b: seq<uint8>)
    requires |a| == |b|
    ensures XorBytes(XorBytes(a, b), b) == a
  {
    forall i | 0 <= i < |a| ensures XorBytes(XorBytes(a, b), b)[i] == a[i] {
      XorCancels(a[i], b[i]);
    }
  }

  function CbcEncrypt(c: BlockCipher, iv: seq<uint8>, plain: seq<uint8>): (cipher: seq<uint8>)
    requires Invertible(c) && |iv| == BLOCK && |plain| % BLOCK == 0
    ensures |cipher| == |plain|
    decreases |plain|
  {
    if plain == [] then [] else
      var y := c.encrypt(XorBytes(plain[..BLOCK], iv));
      y + CbcEncrypt(c, y, plain[BLOCK..])
  }

  function CbcDecrypt(c: BlockCipher, iv: seq<uint8>, cipher: seq<uint8>): (plain: seq<uint8>)
    requires Invertible(c) && |iv| == BLOCK && |cipher| % BLOCK == 0
    ensures |plain| == |cipher|
    decreases |cipher|
  {
    if cipher == [] then [] else
      XorBytes(c.decrypt(cipher[..BLOCK]), iv) + CbcDecrypt(c, cipher[..BLOCK], cipher[BLOCK..])
  }

  lemma {:induction false} CbcRoundTrip(c: BlockCipher, iv: seq<uint8>, plain: seq<uint8>)
    requires Invertible(c) && |iv| == BLOCK && |plain| % BLOCK == 0
    ensures CbcDecrypt(c, iv, CbcEncrypt(c, iv, plain)) == plain
    decreases |plain|
  {
    if plain != [] {
      var x := XorBytes(plain[..BLOCK], iv);
      var y, cipher := c.encrypt(x), CbcEncrypt(c, iv, plain);
      assert cipher[..BLOCK] == y && cipher[BLOCK..] == CbcEncrypt(c, y, plain[BLOCK..]);
      CbcRoundTrip(c, y, plain[BLOCK..]);
      XorBytesCancels(plain[..BLOCK], iv);
      assert plain == plain[..BLOCK] + plain[BLOCK..];
    }
  }

  lemma {:induction false} SliceOfTail(s: seq<uint8>, n: nat, i: nat, k: nat)
    requires i <= k && n + k <= |s|
    ensures s[n..][i..k] == s[n + i..n + k]
  {
  }

  lemma {:induction false} SliceOfConcat(a: seq<uint8>, b: seq<uint8>, i: nat, k: nat)
    requires i <= k <= |b|
    ensures (a + b)[|a| + i..|a| + k] == b[i..k]
  {
  }

  /** The block before block `j` in a chain. */
  function Before(iv: seq<uint8>, cipher: seq<uint8>, j: nat): seq<uint8>
    requires 16 * j <= |cipher|
  {
    if j == 0 then iv else cipher[16 * j - 16..16 * j]
  }

  lemma {:induction false} BeforeInTail(iv: seq<uint8>, cipher: seq<uint8>, j: nat)
    requires j > 0 && 16 * j <= |cipher|
    ensures Before(cipher[..16], cipher[16..], j - 1) == Before(iv, cipher, j)
  {
    if j > 1 { SliceOfTail(cipher, 16, 16 * (j - 1) - 16, 16 * (j - 1)); }
  }

  /** Block `j` of the cipher text is the encrypted sum of block `j` of the plain text and the block before it in
      the cipher text, which is the vector for the first. */
  lemma {:induction false} CbcEncryptBlock(c: BlockCipher, iv: seq<uint8>, plain: seq<uint8>, j: nat)
    requires Invertible(c) && |iv| == 16 && |plain| % 16 == 0 && 16 * (j + 1) <= |plain|
    ensures var y := CbcEncrypt(c, iv, plain);
            y[16 * j..16 * j + 16] == c.encrypt(XorBytes(plain[16 * j..16 * j + 16], Before(iv, y, j)))
    decreases j
  {
    var y, first := CbcEncrypt(c, iv, plain), c.encrypt(XorBytes(plain[..16], iv));
    var rest := CbcEncrypt(c, first, plain[16..]);
    CbcEncryptStep(c, iv, plain);
    hide CbcEncrypt; hide XorBytes;
    assert y[..16] == first && y[16..] == rest;
    if j > 0 {
      CbcEncryptBlock(c, first, plain[16..], j - 1);
      BeforeInTail(iv, y, j);
      hide Before;
      SliceOfTail(y, 16, 16 * (j - 1), 16 * (j - 1) + 16);
      SliceOfTail(plain, 16, 16 * (j - 1), 16 * (j - 1) + 16);
    }
  }

  /** Block `j` of the plain text is the sum of the decrypted block `j` of the cipher text and the block before
      it in the cipher text, which is the vector for the first. */
  lemma {:induction false} CbcDecryptBlock(c: BlockCipher, iv: seq<uint8>, cipher: seq<uint8>, j: nat)
    requires Invertible(c) && |iv| == 16 && |cipher| % 16 == 0 && 16 * (j + 1) <= |cipher|
    ensures CbcDecrypt(c, iv, cipher)[16 * j..16 * j + 16]
      == XorBytes(c.decrypt(cipher[16 * j..16 * j + 16]), Before(iv, cipher, j))
    decreases j
  {
    var p, rest := CbcDecrypt(c, iv, cipher), CbcDecrypt(c, cipher[..16], cipher[16..]);
    CbcDecryptStep(c, iv, cipher);
    hide CbcDecrypt; hide XorBytes;
    assert p[..16] == XorBytes(c.decrypt(cipher[..16]), iv) && p[16..] == rest;
    if j > 0 {
      CbcDecryptBlock(c, cipher[..16], cipher[16..], j - 1);
      BeforeInTail(iv, cipher, j);
      hide Before;
      SliceOfTail(p, 16, 16 * (j - 1), 16 * (j - 1) + 16);
      SliceOfTail(cipher, 16, 16 * (j - 1), 16 * (j - 1) + 16);
    }
  }

  // ----- Secure frames -----

  function EncryptFrame(c: BlockCipher, plain: seq<uint8>): (cipher: seq<uint8>)
    requires Invertible(c) && |plain| == SECURE
    ensures |cipher| == SECURE
  {
    plain[..CLEAR] + CbcEncrypt(c, plain[HEADER..CLEAR], plain[CLEAR..])
  }

  function DecryptFrame(c: BlockCipher, cipher: seq<uint8>): (plain: seq<uint8>)
    requires Invertible(c) && |cipher| == SECURE
    ensures |plain| == SECURE
  {
    cipher[..CLEAR] + CbcDecrypt(c, cipher[HEADER..CLEAR], cipher[CLEAR..])
  }

  /** The block before block `j` in a frame of 20 clear bytes and a chain: the vector is in bytes 4 to 19. */
  lemma {:induction false} BeforeInFrame(clear: seq<uint8>, chain: seq<uint8>, j: nat)
    requires |clear| == 20 && 16 * j <= |chain|
    ensures var at := 20 + 16 * j;
            Before(clear[4..20], chain, j) == if j == 0 then (clear + chain)[4..20] else (clear + chain)[at - 16..at]
  {
    if j > 0 { SliceOfConcat(clear, chain, 16 * j - 16, 16 * j); } else { assert (clear + chain)[4..20] == clear[4..20]; }
  }

  /** An encrypted frame, byte for byte: 20 bytes in the clear, of which bytes 4 to 19 are the vector of the
      chain, and then 13 blocks. */
  lemma {:induction false} EncryptedFrameIs(c: BlockCipher, plain: seq<uint8>, j: nat)
    requires Invertible(c) && |plain| == 228 && j < 13
    ensures var y, at := EncryptFrame(c, plain), 20 + 16 * j;
            && |y| == 228 && y[..20] == plain[..20]
            && y[at..at + 16] == c.encrypt(XorBytes(plain[at..at + 16], if j == 0 then plain[4..20] else y[at - 16..at]))
  {
    var clear, chain := plain[..20], CbcEncrypt(c, plain[4..20], plain[20..]);
    assert clear[4..20] == plain[4..20];
    CbcEncryptBlock(c, plain[4..20], plain[20..], j);
    assert EncryptFrame(c, plain) == clear + chain;
    hide CbcEncrypt; hide XorBytes; hide EncryptFrame;
    BeforeInFrame(clear, chain, j);
    SliceOfConcat(clear, chain, 16 * j, 16 * j + 16);
    SliceOfTail(plain, 20, 16 * j, 16 * j + 16);
    assert (clear + chain)[..20] == clear && (clear + chain)[4..20] == plain[4..20];
    hide Before;
  }

  lemma {:induction false} DecryptedFrameIs(c: BlockCipher, cipher: seq<uint8>, j: nat)
    requires Invertible(c) && |cipher| == 228 && j < 13
    ensures var p, at := DecryptFrame(c, cipher), 20 + 16 * j;
            && |p| == 228 && p[..20] == cipher[..20]
            && p[at..at + 16]
                 == XorBytes(c.decrypt(cipher[at..at + 16]), if j == 0 then cipher[4..20] else cipher[at - 16..at])
  {
    var clear, chain, back := cipher[..20], cipher[20..], CbcDecrypt(c, cipher[4..20], cipher[20..]);
    assert clear[4..20] == cipher[4..20] && cipher == clear + chain;
    CbcDecryptBlock(c, cipher[4..20], chain, j);
    assert DecryptFrame(c, cipher) == clear + back;
    hide CbcDecrypt; hide XorBytes; hide DecryptFrame;
    BeforeInFrame(clear, chain, j);
    SliceOfConcat(clear, back, 16 * j, 16 * j + 16);
    SliceOfTail(cipher, 20, 16 * j, 16 * j + 16);
    assert (clear + back)[..20] == clear;
    hide Before;
  }

  /** Decryption undoes encryption; header and vector travel in the clear. */
  lemma {:induction false} FrameRoundTrip(c: BlockCipher, plain: seq<uint8>)
    requires Invertible(c) && |plain| == SECURE
    ensures EncryptFrame(c, plain)[..CLEAR] == plain[..CLEAR]
    ensures DecryptFrame(c, EncryptFrame(c, plain)) == plain
  {
    var cipher := EncryptFrame(c, plain);
    assert cipher[HEADER..CLEAR] == cipher[..CLEAR][HEADER..] == plain[HEADER..CLEAR];
    assert cipher[CLEAR..] == CbcEncrypt(c, plain[HEADER..CLEAR], plain[CLEAR..]);
    CbcRoundTrip(c, plain[HEADER..CLEAR], plain[CLEAR..]);
    assert plain == plain[..CLEAR] + plain[CLEAR..];
  }

  /** `frame` with `block` written at offset `at`. */
  function Put(frame: seq<uint8>, at: nat, block: seq<uint8>): (s: seq<uint8>)
    requires at + |block| <= |frame|
    ensures |s| == |frame|
  {
    frame[..at] + block + frame[at + |block|..]
  }

  lemma {:induction false} PutPrefix(frame: seq<uint8>, at: nat, block: seq<uint8>, n: nat)
    requires at + |block| <= n <= |frame|
    ensures Put(frame, at, block)[..n] == frame[..at] + block + frame[at + |block|..n]
  {
  }

  /** Writing changes exactly the bytes written. */
  lemma {:induction false} PutSlices(frame: seq<uint8>, at: nat, block: seq<uint8>, i: nat, j: nat)
    requires at + |block| <= |frame| && i <= j <= |frame|
    ensures Put(frame, at, block)[at..at + |block|] == block
    ensures j <= at || at + |block| <= i ==> Put(frame, at, block)[i..j] == frame[i..j]
  {
    forall k | i <= k < j && (j <= at || at + |block| <= i) ensures Put(frame, at, block)[k] == frame[k] {
    }
  }

  /** Two adjacent writes are one. */
  lemma {:induction false} PutTwice(frame: seq<uint8>, at: nat, a: seq<uint8>, b: seq<uint8>)
    requires at + |a| + |b| <= |frame|
    ensures Put(Put(frame, at, a), at + |a|, b) == Put(frame, at, a + b)
  {
    PutPrefix(frame, at, a, at + |a|);
    PutSlices(frame, at, a, at + |a| + |b|, |frame|);
  }

  lemma {:induction false} PutOneMore(frame: seq<uint8>, at: nat, block: seq<uint8>, x: uint8)
    requires at + |block| < |frame|
    ensures Put(frame, at, block)[at + |block| := x] == Put(frame, at, block + [x])
  {
  }

  method Write(frame: array<uint8>, at: nat, block: seq<uint8>)
    requires at + |block| <= frame.Length
    modifies frame
    ensures frame[..] == Put(old(frame[..]), at, block)
  {
    forall k | 0 <= k < |block| { frame[at + k] := block[k]; }
  }

  /** The chaining loop has reached offset `at`: what is written there and the chaining of the
      rest of `source` make up the whole output. */
  ghost predicate Chained(out: seq<uint8>, rest: seq<uint8>, at: nat, whole: seq<uint8>) {
    CLEAR <= at <= |out| && whole == out[..at] + rest
  }

  lemma {:induction false} ChainStep(out: seq<uint8>, block: seq<uint8>, rest: seq<uint8>, at: nat, whole: seq<uint8>)
    requires at + |block| <= |out| && Chained(out, block + rest, at, whole)
    ensures Chained(Put(out, at, block), rest, at + |block|, whole)
  {
    assert Put(out, at, block)[..at + |block|] == out[..at] + block;
  }

  lemma {:induction false} CbcEncryptStep(c: BlockCipher, iv: seq<uint8>, plain: seq<uint8>)
    requires Invertible(c) && |iv| == BLOCK && |plain| % BLOCK == 0 && plain != []
    ensures var y := c.encrypt(XorBytes(plain[..BLOCK], iv));
            CbcEncrypt(c, iv, plain) == y + CbcEncrypt(c, y, plain[BLOCK..])
  {
  }

  lemma {:induction false} CbcDecryptStep(c: BlockCipher, iv: seq<uint8>, cipher: seq<uint8>)
    requires Invertible(c) && |iv| == BLOCK && |cipher| % BLOCK == 0 && cipher != []
    ensures CbcDecrypt(c, iv, cipher) ==
      XorBytes(c.decrypt(cipher[..BLOCK]), iv) + CbcDecrypt(c, cipher[..BLOCK], cipher[BLOCK..])
  {
  }

  /** Copies the clear part and chains the rest block by block into `cipher`. */
  method Encrypt(c: BlockCipher, plain: array<uint8>, cipher: array<uint8>)
    requires Invertible(c)
    requires plain.Length == SECURE && cipher.Length == SECURE && plain != cipher
    modifies cipher
    ensures cipher[..] == EncryptFrame(c, plain[..])
  {
    hide CbcEncrypt; hide XorBytes;
    ghost var source, whole := plain[..], EncryptFrame(c, plain[..]);
    var iv := plain[HEADER..CLEAR];
    Write(cipher, 0, plain[..CLEAR]);
    assert cipher[..][..CLEAR] == source[..CLEAR];
    for j := 0 to 13
      invariant |iv| == BLOCK && plain[..] == source
      invariant Chained(cipher[..], CbcEncrypt(c, iv, source[CLEAR + BLOCK * j..]), CLEAR + BLOCK * j, whole)
    {
      var at := CLEAR + BLOCK * j;
      ghost var rest := source[at..];
      assert rest[..BLOCK] == plain[at..at + BLOCK] && rest[BLOCK..] == source[at + BLOCK..];
      CbcEncryptStep(c, iv, rest);
      iv := c.encrypt(XorBytes(plain[at..at + BLOCK], iv));
      ChainStep(cipher[..], iv, CbcEncrypt(c, iv, source[at + BLOCK..]), at, whole);
      Write(cipher, at, iv);
    }
    assert source[SECURE..] == [] && cipher[..][..SECURE] == cipher[..];
  }

  method Decrypt(c: BlockCipher, cipher: array<uint8>, plain: array<uint8>)
    requires Invertible(c)
    requires plain.Length == SECURE && cipher.Length == SECURE && plain != cipher
    modifies plain
    ensures plain[..] == DecryptFrame(c, cipher[..])
  {
    hide CbcDecrypt; hide XorBytes;
    ghost var source, whole := cipher[..], DecryptFrame(c, cipher[..]);
    var iv := cipher[HEADER..CLEAR];
    Write(plain, 0, cipher[..CLEAR]);
    assert plain[..][..CLEAR] == source[..CLEAR];
    for j := 0 to 13
      invariant |iv| == BLOCK && cipher[..] == source
      invariant Chained(plain[..], CbcDecrypt(c, iv, source[CLEAR + BLOCK * j..]), CLEAR + BLOCK * j, whole)
    {
      var at := CLEAR + BLOCK * j;
      ghost var rest := source[at..];
      assert rest[..BLOCK] == cipher[at..at + BLOCK] && rest[BLOCK..] == source[at + BLOCK..];
      CbcDecryptStep(c, iv, rest);
      var x := XorBytes(c.decrypt(cipher[at..at + BLOCK]), iv);
      iv := cipher[at..at + BLOCK];
      ChainStep(plain[..], x, CbcDecrypt(c, iv, source[at + BLOCK..]), at, whole);
      Write(plain, at, x);
    }
    assert source[SECURE..] == [] && plain[..][..SECURE] == plain[..];
  }
}
