/** The CBC and CTR buffer procedures of aes.c, against the modes of NIST SP 800-38A sections 6.2 and 6.5. */
module AesModes {
  import opened Bytes
  import opened BlockCipher
  import Division

  // ---- CBC ----

  function CbcEncrypt(c: Cipher, iv: Block, s: seq<byte>): (r: seq<byte>)
    requires |s| % BLOCK_LEN == 0
    ensures |r| == |s|
    decreases |s|
  {
    if s == [] then []
    else
      var b := c.enc(XorBlock(s[..BLOCK_LEN], iv));
      b + CbcEncrypt(c, b, s[BLOCK_LEN..])
  }

  function CbcDecrypt(c: Cipher, iv: Block, s: seq<byte>): (r: seq<byte>)
    requires |s| % BLOCK_LEN == 0
    ensures |r| == |s|
    decreases |s|
  {
    if s == [] then []
    else XorBlock(c.dec(s[..BLOCK_LEN]), iv) + CbcDecrypt(c, s[..BLOCK_LEN], s[BLOCK_LEN..])
  }

  /** NIST SP 800-38A section 6.2: each block is xored with the ciphertext block before it, the first with the IV. */
  lemma {:induction false} CbcEncryptBlock(c: Cipher, iv: Block, s: seq<byte>, j: nat)
    requires |s| % BLOCK_LEN == 0 && BLOCK_LEN * (j + 1) <= |s|
    ensures var r := CbcEncrypt(c, iv, s);
            BlockAt(r, j) == c.enc(XorBlock(BlockAt(s, j), if j == 0 then iv else BlockAt(r, j - 1)))
    decreases j
  {
    hide XorBlock;
    var b := c.enc(XorBlock(s[..BLOCK_LEN], iv));
    var rest := CbcEncrypt(c, b, s[BLOCK_LEN..]);
    HeadBlock(b, rest);
    HeadBlock(s[..BLOCK_LEN], s[BLOCK_LEN..]);
    assert s[..BLOCK_LEN] + s[BLOCK_LEN..] == s;
    if j > 0 {
      CbcEncryptBlock(c, b, s[BLOCK_LEN..], j - 1);
      LaterBlock(b, rest, j);
      LaterBlock(s[..BLOCK_LEN], s[BLOCK_LEN..], j);
      if j > 1 {
        LaterBlock(b, rest, j - 1);
      }
    }
  }

  /** And back: each deciphered block is xored with the ciphertext block before it. */
  lemma {:induction false} CbcDecryptBlock(c: Cipher, iv: Block, s: seq<byte>, j: nat)
    requires |s| % BLOCK_LEN == 0 && BLOCK_LEN * (j + 1) <= |s|
    ensures BlockAt(CbcDecrypt(c, iv, s), j)
         == XorBlock(c.dec(BlockAt(s, j)), if j == 0 then iv else BlockAt(s, j - 1))
    decreases j
  {
    hide XorBlock;
    var first, rest := s[..BLOCK_LEN], s[BLOCK_LEN..];
    var b := XorBlock(c.dec(first), iv);
    var after := CbcDecrypt(c, first, rest);
    HeadBlock(b, after);
    HeadBlock(first, rest);
    assert first + rest == s;
    if j > 0 {
      CbcDecryptBlock(c, first, rest, j - 1);
      LaterBlock(b, after, j);
      LaterBlock(first, rest, j);
      if j > 1 {
        LaterBlock(first, rest, j - 1);
      }
    }
  }

  lemma HeadBlock(b: Block, s: seq<byte>)
    ensures BlockAt(b + s, 0) == b
  { }

  lemma LaterBlock(b: Block, s: seq<byte>, j: nat)
    requires j > 0 && BLOCK_LEN * j <= |s|
    ensures BlockAt(b + s, j) == BlockAt(s, j - 1)
  { }

  /** The block the next one is chained to, after the ciphertext `s`. */
  function NextIv(iv: Block, s: seq<byte>): Block
    requires |s| % BLOCK_LEN == 0
  {
    if s == [] then iv else s[|s| - BLOCK_LEN..]
  }

  lemma {:induction false} CbcDecryptOfEncrypt(c: Cipher, iv: Block, s: seq<byte>)
    requires Inverse(c) && |s| % BLOCK_LEN == 0
    ensures CbcDecrypt(c, iv, CbcEncrypt(c, iv, s)) == s
    decreases |s|
  {
    hide XorBlock;
    if s != [] {
      var b := c.enc(XorBlock(s[..BLOCK_LEN], iv));
      var r := CbcEncrypt(c, iv, s);
      assert r[..BLOCK_LEN] == b && r[BLOCK_LEN..] == CbcEncrypt(c, b, s[BLOCK_LEN..]);
      CbcDecryptOfEncrypt(c, b, s[BLOCK_LEN..]);
      XorBlockCancels(s[..BLOCK_LEN], iv);
    }
  }

  lemma {:induction false} CbcEncryptOfDecrypt(c: Cipher, iv: Block, s: seq<byte>)
    requires Inverse(c) && |s| % BLOCK_LEN == 0
    ensures CbcEncrypt(c, iv, CbcDecrypt(c, iv, s)) == s
    decreases |s|
  {
    hide XorBlock;
    if s != [] {
      var p := XorBlock(c.dec(s[..BLOCK_LEN]), iv);
      var r := CbcDecrypt(c, iv, s);
      assert r[..BLOCK_LEN] == p && r[BLOCK_LEN..] == CbcDecrypt(c, s[..BLOCK_LEN], s[BLOCK_LEN..]);
      CbcEncryptOfDecrypt(c, s[..BLOCK_LEN], s[BLOCK_LEN..]);
      XorBlockCancels(c.dec(s[..BLOCK_LEN]), iv);
    }
  }

  /** Encrypting in two calls with the carried IV is encrypting the concatenation. */
  lemma {:induction false} CbcEncryptSplits(c: Cipher, iv: Block, s: seq<byte>, t: seq<byte>)
    requires |s| % BLOCK_LEN == 0 && |t| % BLOCK_LEN == 0
    ensures var r := CbcEncrypt(c, iv, s); CbcEncrypt(c, iv, s + t) == r + CbcEncrypt(c, NextIv(iv, r), t)
    decreases |s|
  {
    hide XorBlock, NextIv;
    if s == [] {
      assert s + t == t;
      NextIvOfNone(iv);
    } else {
      var b := c.enc(XorBlock(s[..BLOCK_LEN], iv));
      var rest := CbcEncrypt(c, b, s[BLOCK_LEN..]);
      FirstBlock(s, t);
      CbcEncryptSplits(c, b, s[BLOCK_LEN..], t);
      NextIvSplits(iv, b, rest);
      NextIvOfBlock(iv, b);
      Regroup(b, rest, CbcEncrypt(c, NextIv(b, rest), t));
    }
  }

  lemma NextIvOfNone(iv: Block)
    ensures NextIv(iv, []) == iv
  { }

  lemma NextIvOfBlock(iv: Block, b: Block)
    ensures NextIv(iv, b) == b
  { }

  /** Decrypting likewise. */
  lemma {:induction false} CbcDecryptSplits(c: Cipher, iv: Block, s: seq<byte>, t: seq<byte>)
    requires |s| % BLOCK_LEN == 0 && |t| % BLOCK_LEN == 0
    ensures CbcDecrypt(c, iv, s + t) == CbcDecrypt(c, iv, s) + CbcDecrypt(c, NextIv(iv, s), t)
    decreases |s|
  {
    hide XorBlock;
    if s == [] {
      assert s + t == t;
    } else {
      FirstBlock(s, t);
      CbcDecryptSplits(c, s[..BLOCK_LEN], s[BLOCK_LEN..], t);
      NextIvOfRest(iv, s);
      var x := XorBlock(c.dec(s[..BLOCK_LEN]), iv);
      Regroup(x, CbcDecrypt(c, s[..BLOCK_LEN], s[BLOCK_LEN..]), CbcDecrypt(c, NextIv(iv, s), t));
    }
  }

  lemma NextIvSplits(iv: Block, s: seq<byte>, t: seq<byte>)
    requires |s| % BLOCK_LEN == 0 && |t| % BLOCK_LEN == 0
    ensures |s + t| % BLOCK_LEN == 0 && NextIv(iv, s + t) == NextIv(NextIv(iv, s), t)
  {
    Division.AddBlocks(|s|, |t|);
    if t == [] {
      assert s + t == s;
    } else {
      LastOfJoin(s, t, BLOCK_LEN);
    }
  }

  lemma LastOfJoin(s: seq<byte>, t: seq<byte>, n: nat)
    requires n <= |t|
    ensures (s + t)[|s + t| - n..] == t[|t| - n..]
  { }

  lemma NextIvOfRest(iv: Block, s: seq<byte>)
    requires s != [] && |s| % BLOCK_LEN == 0
    ensures NextIv(s[..BLOCK_LEN], s[BLOCK_LEN..]) == NextIv(iv, s)
  {
    assert s == s[..BLOCK_LEN] + s[BLOCK_LEN..];
    NextIvSplits(iv, s[..BLOCK_LEN], s[BLOCK_LEN..]);
  }

  lemma FirstBlock(s: seq<byte>, t: seq<byte>)
    requires |s| >= BLOCK_LEN
    ensures (s + t)[..BLOCK_LEN] == s[..BLOCK_LEN] && (s + t)[BLOCK_LEN..] == s[BLOCK_LEN..] + t
  { }

  lemma CbcOneMore(c: Cipher, iv: Block, s: seq<byte>, b: Block)
    requires |s| % BLOCK_LEN == 0
    ensures var r := CbcEncrypt(c, iv, s);
            CbcEncrypt(c, iv, s + b) == r + c.enc(XorBlock(b, NextIv(iv, r)))
    ensures CbcDecrypt(c, iv, s + b) == CbcDecrypt(c, iv, s) + XorBlock(c.dec(b), NextIv(iv, s))
    ensures NextIv(iv, s + b) == b
  {
    CbcEncryptSplits(c, iv, s, b);
    CbcDecryptSplits(c, iv, s, b);
    NextIvSplits(iv, s, b);
    CbcOneBlock(c, NextIv(iv, CbcEncrypt(c, iv, s)), b);
    CbcOneBlock(c, NextIv(iv, s), b);
  }

  lemma CbcOneBlock(c: Cipher, iv: Block, b: Block)
    ensures CbcEncrypt(c, iv, b) == c.enc(XorBlock(b, iv))
    ensures CbcDecrypt(c, iv, b) == XorBlock(c.dec(b), iv)
    ensures NextIv(iv, b) == b
  {
    hide XorBlock;
    assert b[..BLOCK_LEN] == b && b[BLOCK_LEN..] == [];
    assert CbcEncrypt(c, c.enc(XorBlock(b, iv)), []) == [] && CbcDecrypt(c, b, []) == [];
  }

  lemma EmptyCbc(c: Cipher, iv: Block, s: seq<byte>)
    ensures s[..0] == [] && s[0..] == s
    ensures CbcEncrypt(c, iv, []) == [] && CbcDecrypt(c, iv, []) == [] && NextIv(iv, []) == iv
  { }

  lemma BlockStep(i: nat, length: nat)
    requires i % BLOCK_LEN == 0 && length % BLOCK_LEN == 0 && i < length
    ensures i + BLOCK_LEN <= length && (i + BLOCK_LEN) % BLOCK_LEN == 0
  {
    Division.AddBlocks(i, BLOCK_LEN);
  }

  /** The block at `i` is still the original one. */
  lemma NextBlock(buf: array<byte>, s: seq<byte>, i: nat)
    requires i + BLOCK_LEN <= buf.Length == |s| && buf[i..] == s[i..]
    ensures buf[i..i + BLOCK_LEN] == s[i..i + BLOCK_LEN]
    ensures s[..i] + s[i..i + BLOCK_LEN] == s[..i + BLOCK_LEN]
    ensures buf[..][i + BLOCK_LEN..] == s[i + BLOCK_LEN..]
    ensures buf[..][..i] == buf[..i]
  {
    assert buf[i..i + BLOCK_LEN] == buf[i..][..BLOCK_LEN];
    assert buf[..][i + BLOCK_LEN..] == buf[i..][BLOCK_LEN..];
    assert s[i + BLOCK_LEN..] == s[i..][BLOCK_LEN..];
  }

  /** One block of the encrypting loop; the chaining block may lie in `buf`, before `at`. */
  method XorThenEncrypt(ctx: Context, buf: array<byte>, at: nat, ivArray: array<byte>, ivAt: nat)
    requires ctx.Valid() && at + BLOCK_LEN <= buf.Length && buf != ctx.roundKey
    requires ivAt + BLOCK_LEN <= ivArray.Length && (buf != ivArray || ivAt + BLOCK_LEN <= at)
    modifies buf
    ensures buf[..] == Put(old(buf[..]), at,
                           ctx.Cipher().enc(XorBlock(old(buf[at..at + BLOCK_LEN]),
                                                     old(ivArray[ivAt..ivAt + BLOCK_LEN]))))
  {
    hide XorBlock, WithRoundKey, Put;
    ghost var was, x := buf[..], XorBlock(buf[at..at + BLOCK_LEN], ivArray[ivAt..ivAt + BLOCK_LEN]);
    XorInPlace(buf, at, ivArray, ivAt);
    PutInArray(buf, was, at, x);
    ctx.EcbEncrypt(buf, at);
  }

  /** One block of the decrypting loop, without the bookkeeping of the IV. */
  method DecryptThenXor(ctx: Context, buf: array<byte>, at: nat)
    requires ctx.Valid() && at + BLOCK_LEN <= buf.Length && buf != ctx.roundKey && buf != ctx.iv
    modifies buf
    ensures buf[..] == Put(old(buf[..]), at, XorBlock(ctx.Cipher().dec(old(buf[at..at + BLOCK_LEN])), ctx.iv[..]))
  {
    hide XorBlock, WithRoundKey, Put;
    ghost var was, d := buf[..], ctx.Cipher().dec(buf[at..at + BLOCK_LEN]);
    ctx.EcbDecrypt(buf, at);
    PutInArray(buf, was, at, d);
    assert ctx.iv[0..BLOCK_LEN] == ctx.iv[..];
    XorInPlace(buf, at, ctx.iv, 0);
  }

  /** AES_CBC_encrypt_buffer; the `Iv` pointer is an array and an index, and points into `buf` after one block. */
  method CbcEncryptBuffer(ctx: Context, buf: array<byte>, length: nat)
    requires ctx.Valid() && length <= buf.Length && length % BLOCK_LEN == 0
    requires buf != ctx.roundKey && buf != ctx.iv
    modifies buf, ctx.iv
    ensures buf[..] == CbcEncrypt(ctx.Cipher(), old(ctx.iv[..]), old(buf[..length])) + old(buf[length..])
    ensures ctx.iv[..] == NextIv(old(ctx.iv[..]), buf[..length])
  {
    hide XorBlock, WithRoundKey, Put, CbcEncrypt, NextIv;
    ghost var c, iv0: Block, s := ctx.Cipher(), ctx.iv[..], buf[..];
    EmptyCbc(c, iv0, s);
    var ivArray, ivAt := ctx.iv, 0;
    var i := 0;
    while i < length
      invariant 0 <= i <= length && i % BLOCK_LEN == 0
      invariant buf[..i] == CbcEncrypt(c, iv0, s[..i]) && buf[i..] == s[i..]
      invariant ctx.iv[..] == iv0
      invariant if i == 0 then ivArray == ctx.iv && ivAt == 0 else ivArray == buf && ivAt == i - BLOCK_LEN
      invariant ivArray[ivAt..ivAt + BLOCK_LEN] == NextIv(iv0, buf[..i])
    {
      ghost var before := buf[..];
      ghost var b, iv := s[i..i + BLOCK_LEN], NextIv(iv0, before[..i]);
      BlockStep(i, length);
      NextBlock(buf, s, i);
      CbcOneMore(c, iv0, s[..i], b);
      CbcOneMore(c, iv0, before[..i], c.enc(XorBlock(b, iv)));
      XorThenEncrypt(ctx, buf, i, ivArray, ivAt);
      PutInArray(buf, before, i, c.enc(XorBlock(b, iv)));
      ivArray, ivAt := buf, i;
      i := i + BLOCK_LEN;
    }
    CopyBlock(ctx.iv, ivArray[ivAt..ivAt + BLOCK_LEN]);
    assert buf[..] == buf[..length] + buf[length..];
  }

  /** AES_CBC_decrypt_buffer. */
  method CbcDecryptBuffer(ctx: Context, buf: array<byte>, length: nat)
    requires ctx.Valid() && length <= buf.Length && length % BLOCK_LEN == 0
    requires buf != ctx.roundKey && buf != ctx.iv
    modifies buf, ctx.iv
    ensures buf[..] == CbcDecrypt(ctx.Cipher(), old(ctx.iv[..]), old(buf[..length])) + old(buf[length..])
    ensures ctx.iv[..] == NextIv(old(ctx.iv[..]), old(buf[..length]))
  {
    hide XorBlock, WithRoundKey, Put, CbcDecrypt, NextIv;
    ghost var c, iv0: Block, s := ctx.Cipher(), ctx.iv[..], buf[..];
    EmptyCbc(c, iv0, s);
    var i := 0;
    while i < length
      invariant 0 <= i <= length && i % BLOCK_LEN == 0
      invariant buf[..i] == CbcDecrypt(c, iv0, s[..i]) && buf[i..] == s[i..]
      invariant ctx.iv[..] == NextIv(iv0, s[..i])
    {
      ghost var before := buf[..];
      ghost var b, iv := s[i..i + BLOCK_LEN], NextIv(iv0, s[..i]);
      BlockStep(i, length);
      NextBlock(buf, s, i);
      CbcOneMore(c, iv0, s[..i], b);
      var storeNextIv := buf[i..i + BLOCK_LEN];
      DecryptThenXor(ctx, buf, i);
      PutInArray(buf, before, i, XorBlock(c.dec(b), iv));
      CopyBlock(ctx.iv, storeNextIv);
      i := i + BLOCK_LEN;
    }
    assert s[..length] == old(buf[..length]);
    assert buf[..] == buf[..length] + buf[length..];
  }

  // ---- CTR ----

  /** The counter step: add one to the last byte and carry leftwards, dropping the carry out of byte 0. */
  function Increment(s: seq<byte>): (r: seq<byte>)
    ensures |r| == |s|
  {
    if s == [] then []
    else
      var n := |s| - 1;
      if s[n] == 255 then Increment(s[..n]) + [0] else s[..n] + [Bump(s[n])]
  }

  function Bump(x: byte): byte {
    x + 1
  }

  lemma {:induction false} IncrementIsAddOne(s: seq<byte>)
    ensures var v := BigEndian(s) + 1;
            BigEndian(Increment(s)) == if v == Pow256(|s|) then 0 else v
  {
    if s != [] {
      var n := |s| - 1;
      var r := Increment(s);
      IncrementIsAddOne(s[..n]);
      BigEndianBound(s[..n]);
      LastByte(s[n]);
      if s[n] == 255 {
        assert r[..n] == Increment(s[..n]) && r[n] == 0;
      } else {
        assert r[..n] == s[..n] && r[n] == s[n] + 1;
      }
    }
  }

  lemma LastByte(x: byte)
    ensures x as nat < 256 && (x == 255 <==> x as nat == 255)
    ensures x != 255 ==> (x + 1) as nat == x as nat + 1
  { }

  function Counter(iv: Block, n: nat): Block {
    if n == 0 then iv else Increment(Counter(iv, n - 1))
  }

  const TWO128: nat := 0x1_0000_0000_0000_0000_0000_0000_0000_0000

  /** Counter block `n` is the IV plus `n`, as 128-bit big-endian numbers; this determines it. */
  lemma {:induction false} CounterIsSum(iv: Block, n: nat)
    ensures BigEndian(Counter(iv, n)) == (BigEndian(iv) + n) % TWO128
  {
    hide BigEndian, Pow256, Increment;
    Pow256Values();
    if n == 0 {
      BigEndianBound(iv);
    } else {
      CounterIsSum(iv, n - 1);
      IncrementIsAddOne(Counter(iv, n - 1));
    }
  }

  lemma {:induction false} CounterAdds(iv: Block, n: nat, m: nat)
    ensures Counter(Counter(iv, n), m) == Counter(iv, n + m)
  {
    if m > 0 {
      CounterAdds(iv, n, m - 1);
    }
  }

  /** NIST SP 800-38A section 6.5: byte i is masked with byte i mod 16 of the encrypted counter block i / 16. */
  function CtrCrypt(c: Cipher, iv: Block, s: seq<byte>): (r: seq<byte>)
    ensures |r| == |s|
  {
    seq(|s|, i requires 0 <= i < |s| => Xor(s[i], MaskByte(c, iv, i)))
  }

  function MaskByte(c: Cipher, iv: Block, i: nat): byte {
    c.enc(Counter(iv, i / BLOCK_LEN))[i % BLOCK_LEN]
  }

  /** The bytes are masked with the encrypted number IV + i / 16, modulo 2^128 and most significant byte first. */
  ghost predicate Masked(c: Cipher, iv: Block, before: seq<byte>, after: seq<byte>) {
    && |after| == |before|
    && forall i: nat, x: Block ::
      i < |before| && BigEndian(x) == (BigEndian(iv) + i / 16) % 0x1_0000_0000_0000_0000_0000_0000_0000_0000 ==>
      after[i] == Xor(before[i], c.enc(x)[i % 16])
  }

  lemma CtrIsMasked(c: Cipher, iv: Block, s: seq<byte>)
    ensures Masked(c, iv, s, CtrCrypt(c, iv, s))
  {
    hide Xor, BigEndian, Counter;
    forall i: nat, x: Block | i < |s| && BigEndian(x) == (BigEndian(iv) + i / 16) % TWO128
      ensures CtrCrypt(c, iv, s)[i] == Xor(s[i], c.enc(x)[i % 16])
    {
      CounterIsSum(iv, i / 16);
      BigEndianInjective(x, Counter(iv, i / 16));
    }
  }

  lemma CtrIsInvolution(c: Cipher, iv: Block, s: seq<byte>)
    ensures CtrCrypt(c, iv, CtrCrypt(c, iv, s)) == s
  {
    var t := CtrCrypt(c, iv, s);
    forall i | 0 <= i < |s| ensures CtrCrypt(c, iv, t)[i] == s[i] {
      var m := MaskByte(c, iv, i);
      assert Xor(Xor(s[i], m), m) == s[i];
    }
  }

  function Blocks(n: nat): nat {
    (n + BLOCK_LEN - 1) / BLOCK_LEN
  }

  /** Two calls, the first on whole blocks and the second from the IV it leaves, are one call. */
  lemma CtrSplits(c: Cipher, iv: Block, s: seq<byte>, t: seq<byte>)
    requires |s| % BLOCK_LEN == 0
    ensures CtrCrypt(c, iv, s + t) == CtrCrypt(c, iv, s) + CtrCrypt(c, Counter(iv, Blocks(|s|)), t)
    ensures Counter(iv, Blocks(|s + t|)) == Counter(Counter(iv, Blocks(|s|)), Blocks(|t|))
  {
    hide Xor, Counter;
    var n := |s| / BLOCK_LEN;
    Division.DivUnique(|s| + BLOCK_LEN - 1, BLOCK_LEN, n, BLOCK_LEN - 1);
    Division.AddBlocks(|t| + BLOCK_LEN - 1, |s|);
    CounterAdds(iv, n, Blocks(|t|));
    var whole, rest := CtrCrypt(c, iv, s + t), CtrCrypt(c, Counter(iv, n), t);
    forall i | 0 <= i < |t| ensures whole[|s| + i] == rest[i] {
      CounterAdds(iv, n, i / BLOCK_LEN);
      Division.AddBlocks(i, |s|);
      assert (s + t)[|s| + i] == t[i];
    }
    assert whole[..|s|] == CtrCrypt(c, iv, s);
    assert whole[|s|..] == rest;
  }

  /** The carry loop on the context IV. */
  method IncrementInPlace(iv: array<byte>)
    requires iv.Length == BLOCK_LEN
    modifies iv
    ensures iv[..] == Increment(old(iv[..]))
  {
    hide Increment, Bump;
    ghost var s := iv[..];
    var bi := BLOCK_LEN - 1;
    assert s[..BLOCK_LEN] == s && iv[BLOCK_LEN..] == [];
    while bi >= 0
      invariant -1 <= bi < BLOCK_LEN
      invariant iv[..bi + 1] == s[..bi + 1]
      invariant Increment(s) == Increment(s[..bi + 1]) + iv[bi + 1..]
    {
      IncrementLast(s, bi);
      assert iv[bi] == s[bi];
      if iv[bi] == 255 {
        iv[bi] := 0;
        assert iv[bi..] == [0] + iv[bi + 1..];
        bi := bi - 1;
        continue;
      }
      iv[bi] := Bump(iv[bi]);
      assert iv[..] == s[..bi] + [iv[bi]] + iv[bi + 1..];
      break;
    }
    if bi < 0 {
      IncrementNone();
      assert iv[..] == iv[bi + 1..] && s[..bi + 1] == [];
    }
  }

  lemma IncrementLast(s: seq<byte>, n: nat)
    requires n < |s|
    ensures Increment(s[..n + 1]) == if s[n] == 255 then Increment(s[..n]) + [0] else s[..n] + [Bump(s[n])]
  {
    assert s[..n + 1][..n] == s[..n];
  }

  lemma IncrementNone()
    ensures Increment([]) == []
  { }

  /** Refill the mask from the IV and step the IV. */
  method NextMask(ctx: Context, buffer: array<byte>)
    requires ctx.Valid() && buffer.Length == BLOCK_LEN && buffer != ctx.roundKey && buffer != ctx.iv
    modifies buffer, ctx.iv
    ensures buffer[..] == ctx.Cipher().enc(old(ctx.iv[..])) && ctx.iv[..] == Increment(old(ctx.iv[..]))
  {
    hide WithRoundKey, Increment;
    CopyBlock(buffer, ctx.iv[..]);
    assert buffer[0..BLOCK_LEN] == buffer[..] == ctx.iv[..];
    ctx.EcbEncrypt(buffer, 0);
    IncrementInPlace(ctx.iv);
  }

  /** AES_CTR_xcrypt_buffer: one pass over the bytes, a fresh mask whenever `bi` reaches the block length. */
  method CtrCryptBuffer(ctx: Context, buf: array<byte>, length: nat)
    requires ctx.Valid() && length <= buf.Length
    requires buf != ctx.roundKey && buf != ctx.iv
    modifies buf, ctx.iv
    ensures buf[..] == CtrCrypt(ctx.Cipher(), old(ctx.iv[..]), old(buf[..length])) + old(buf[length..])
    ensures ctx.iv[..] == Counter(old(ctx.iv[..]), Blocks(length))
    ensures Masked(ctx.Cipher(), old(ctx.iv[..]), old(buf[..length]), buf[..length])
    ensures BigEndian(ctx.iv[..]) == (BigEndian(old(ctx.iv[..])) + (length + 15) / 16) % TWO128
  {
    hide WithRoundKey, Xor, Increment, MaskByte, Blocks, BigEndian, Masked;
    ghost var c, iv0: Block, s := ctx.Cipher(), ctx.iv[..], buf[..];
    var buffer := new byte[BLOCK_LEN];
    var i, bi := 0, BLOCK_LEN;
    ghost var b := 0;
    while i < length
      invariant 0 <= i <= length && 0 < bi <= BLOCK_LEN && i + BLOCK_LEN == BLOCK_LEN * b + bi
      invariant b > 0 ==> buffer[..] == c.enc(Counter(iv0, b - 1))
      invariant ctx.iv[..] == Counter(iv0, b)
      invariant forall k :: 0 <= k < |s| ==> buf[k] == if k < i then Xor(s[k], MaskByte(c, iv0, k)) else s[k]
    {
      if bi == BLOCK_LEN {
        NextMask(ctx, buffer);
        bi := 0;
        b := b + 1;
      }
      MaskByteAt(c, iv0, i, b - 1, bi);
      buf[i] := Xor(buf[i], buffer[bi]);
      i, bi := i + 1, bi + 1;
    }
    BlocksAt(i, b, bi);
    assert buf[..] == CtrCrypt(c, iv0, s[..length]) + s[length..];
    assert buf[..length] == CtrCrypt(c, iv0, s[..length]);
    CtrIsMasked(c, iv0, s[..length]);
    CounterIsSum(iv0, Blocks(length));
    BlocksFor(length);
  }

  lemma BlocksFor(n: nat)
    ensures Blocks(n) == (n + 15) / 16
  { }

  lemma MaskByteAt(c: Cipher, iv: Block, i: nat, b: nat, bi: nat)
    requires bi < BLOCK_LEN && i == BLOCK_LEN * b + bi
    ensures MaskByte(c, iv, i) == c.enc(Counter(iv, b))[bi]
  {
    Division.DivUnique(i, BLOCK_LEN, b, bi);
  }

  lemma BlocksAt(i: nat, b: nat, bi: nat)
    requires 0 < bi <= BLOCK_LEN && i + BLOCK_LEN == BLOCK_LEN * b + bi
    ensures Blocks(i) == b
  {
    Division.DivUnique(i + BLOCK_LEN - 1, BLOCK_LEN, b, bi - 1);
  }
}
