/**
 XTS-N, ccrypto.c: XTS with a big-endian sector number, startable at any block of the sector. The
 specification is blockwise over any block cipher; the procedure runs AES.
 */
module Xtsn {
  import opened Bytes
  import Division
  import opened BlockCipher
  import opened Tweak
  import opened KeySchedule

  type u32 = x: int | 0 <= x < 0x1_0000_0000

  /** The block procedure of IEEE Std 1619-2007 sections 5.3.1 and 5.4.1, for either direction `f`. */
  function XtsBlock(f: Block -> Block, t: Block, b: Block): Block {
    XorBlock(f(XorBlock(b, t)), t)
  }

  /** Block `i` of `s` under the tweak `alpha^i * t`. */
  function XtsBlockAt(f: Block -> Block, t: Block, s: seq<byte>, i: nat): Block
    requires BLOCK_LEN * (i + 1) <= |s|
  {
    XtsBlock(f, Alpha(t, i), BlockAt(s, i))
  }

  /** The first `n` blocks of `s` processed, the rest as it was. */
  function XtsUpTo(f: Block -> Block, t: Block, s: seq<byte>, n: nat): (r: seq<byte>)
    requires BLOCK_LEN * n <= |s|
    ensures |r| == |s|
  {
    seq(|s|, i requires 0 <= i < |s| =>
      if i < BLOCK_LEN * n then XtsBlockAt(f, t, s, i / BLOCK_LEN)[i % BLOCK_LEN] else s[i])
  }

  function Xts(f: Block -> Block, t: Block, s: seq<byte>): (r: seq<byte>)
    ensures |r| == |s|
  {
    XtsUpTo(f, t, s, |s| / BLOCK_LEN)
  }

  function Direction(c: Cipher, encrypt: bool): Block -> Block {
    if encrypt then c.enc else c.dec
  }

  /** The tweak of block 0 of a sector; the code bumps the high word when the low one is about to overflow. */
  function SectorTweak(tw: Cipher, hi: u64, lo: u64): Block {
    tw.enc(GenIv(if lo == MAX64 then Next64(hi) else hi, lo))
  }

  function StartBlock(sectorSize: u32, sectorOffset: u64): nat {
    if sectorOffset > sectorSize then 0 else sectorOffset / BLOCK_LEN
  }

  /** What one call makes of the bytes `s`. */
  function Process(encrypt: bool, c: Cipher, tw: Cipher, hi: u64, lo: u64,
                   sectorSize: u32, sectorOffset: u64, s: seq<byte>): (r: seq<byte>)
    ensures |r| == |s|
  {
    Xts(Direction(c, encrypt), Alpha(SectorTweak(tw, hi, lo), StartBlock(sectorSize, sectorOffset)), s)
  }

  // ---- closed form, round trip, seeking ----

  lemma XtsUpToBlock(f: Block -> Block, t: Block, s: seq<byte>, n: nat, b: nat)
    requires BLOCK_LEN * n <= |s| && b < n
    ensures BlockAt(XtsUpTo(f, t, s, n), b) == XtsBlockAt(f, t, s, b)
  {
    hide XtsBlockAt;
    var r, x := XtsUpTo(f, t, s, n), XtsBlockAt(f, t, s, b);
    forall i | 0 <= i < BLOCK_LEN ensures BlockAt(r, b)[i] == x[i] {
      assert (BLOCK_LEN * b + i) / BLOCK_LEN == b && (BLOCK_LEN * b + i) % BLOCK_LEN == i;
      assert BlockAt(r, b)[i] == r[BLOCK_LEN * b + i];
    }
  }

  lemma XtsUpToRest(f: Block -> Block, t: Block, s: seq<byte>, n: nat)
    requires BLOCK_LEN * n <= |s|
    ensures XtsUpTo(f, t, s, n)[BLOCK_LEN * n..] == s[BLOCK_LEN * n..]
  { }

  /** Strings of equal length with equal blocks and equal tails are equal. */
  lemma SameBlocksAndTail(s: seq<byte>, t: seq<byte>)
    requires |s| == |t|
    requires forall b: nat :: BLOCK_LEN * (b + 1) <= |s| ==> BlockAt(s, b) == BlockAt(t, b)
    requires var n := |s| / BLOCK_LEN; s[BLOCK_LEN * n..] == t[BLOCK_LEN * n..]
    ensures s == t
  {
    hide BlockAt;
    var n := |s| / BLOCK_LEN;
    forall i | 0 <= i < |s| ensures s[i] == t[i] {
      if i < BLOCK_LEN * n {
        var b := i / BLOCK_LEN;
        assert BlockAt(s, b) == BlockAt(t, b);
        BlockByte(s, b, i - BLOCK_LEN * b);
        BlockByte(t, b, i - BLOCK_LEN * b);
      } else {
        assert s[BLOCK_LEN * n..][i - BLOCK_LEN * n] == t[BLOCK_LEN * n..][i - BLOCK_LEN * n];
      }
    }
  }

  lemma XtsClosedForm(f: Block -> Block, t: Block, start: nat, s: seq<byte>, b: nat)
    ensures var r := Xts(f, Alpha(t, start), s);
            && (BLOCK_LEN * (b + 1) <= |s| ==> BlockAt(r, b) == XtsBlock(f, Alpha(t, start + b), BlockAt(s, b)))
            && r[BLOCK_LEN * (|s| / BLOCK_LEN)..] == s[BLOCK_LEN * (|s| / BLOCK_LEN)..]
  {
    hide XtsBlock, XtsUpTo, Alpha;
    XtsUpToRest(f, Alpha(t, start), s, |s| / BLOCK_LEN);
    if BLOCK_LEN * (b + 1) <= |s| {
      XtsUpToBlock(f, Alpha(t, start), s, |s| / BLOCK_LEN, b);
      AlphaAdds(t, start, b);
    }
  }

  /**
   Closed form: block `b` of a call is processed under `alpha^(start + b)` times the encrypted sector
   number, and a tail shorter than a block is left alone. The start is `sectorOffset / 16` and the number
   the one given, except past the sector size and at the last number below the overflow.
   */
  lemma ProcessClosedForm(encrypt: bool, c: Cipher, tw: Cipher, hi: u64, lo: u64,
                          sectorSize: u32, sectorOffset: u64, s: seq<byte>, b: nat)
    ensures var r, start := Process(encrypt, c, tw, hi, lo, sectorSize, sectorOffset, s),
                            if sectorOffset > sectorSize then 0 else sectorOffset / BLOCK_LEN;
            && (BLOCK_LEN * (b + 1) <= |s| ==>
                  BlockAt(r, b) == XtsBlock(Direction(c, encrypt), Alpha(SectorTweak(tw, hi, lo), start + b),
                                            BlockAt(s, b)))
            && r[BLOCK_LEN * (|s| / BLOCK_LEN)..] == s[BLOCK_LEN * (|s| / BLOCK_LEN)..]
    ensures SectorTweak(tw, hi, lo) == tw.enc(GenIv(hi, lo)) || lo == MAX64
  {
    hide XtsBlock, Xts, Alpha, BlockAt;
    XtsClosedForm(Direction(c, encrypt), SectorTweak(tw, hi, lo), StartBlock(sectorSize, sectorOffset), s, b);
  }

  /** The same with nothing abbreviated: the two xors, the direction, the bumped high word, the reset start. */
  lemma ProcessWritten(encrypt: bool, c: Cipher, tw: Cipher, hi: u64, lo: u64,
                       sectorSize: u32, sectorOffset: u64, s: seq<byte>, b: nat)
    requires BLOCK_LEN * (b + 1) <= |s|
    ensures var number := GenIv(if lo == 0xffff_ffff_ffff_ffff then (hi + 1) % 0x1_0000_0000_0000_0000 else hi, lo);
            var start := if sectorOffset > sectorSize then 0 else sectorOffset / 16;
            var t := Alpha(tw.enc(number), start + b);
            var x := XorBlock(s[16 * b..16 * b + 16], t);
            Process(encrypt, c, tw, hi, lo, sectorSize, sectorOffset, s)[16 * b..16 * b + 16]
            == XorBlock(if encrypt then c.enc(x) else c.dec(x), t)
  {
    hide XorBlock, Process, Alpha, GenIv;
    ProcessClosedForm(encrypt, c, tw, hi, lo, sectorSize, sectorOffset, s, b);
  }

  lemma XtsBlockInverts(c: Cipher, encrypt: bool, t: Block, b: Block)
    requires Inverse(c)
    ensures XtsBlock(Direction(c, !encrypt), t, XtsBlock(Direction(c, encrypt), t, b)) == b
  {
    var f, g := Direction(c, encrypt), Direction(c, !encrypt);
    hide XorBlock;
    var x := XorBlock(b, t);
    XorBlockCancels(f(x), t);
    assert g(f(x)) == x;
    XorBlockCancels(b, t);
  }

  lemma XtsInverts(c: Cipher, encrypt: bool, t: Block, s: seq<byte>)
    requires Inverse(c)
    ensures Xts(Direction(c, !encrypt), t, Xts(Direction(c, encrypt), t, s)) == s
  {
    hide XtsBlock, XtsUpTo, Inverse;
    var f, g, n := Direction(c, encrypt), Direction(c, !encrypt), |s| / BLOCK_LEN;
    var r := Xts(f, t, s);
    var u := Xts(g, t, r);
    forall b: nat | BLOCK_LEN * (b + 1) <= |s| ensures BlockAt(u, b) == BlockAt(s, b) {
      XtsUpToBlock(f, t, s, n, b);
      XtsUpToBlock(g, t, r, n, b);
      XtsBlockInverts(c, encrypt, Alpha(t, b), BlockAt(s, b));
    }
    XtsUpToRest(f, t, s, n);
    XtsUpToRest(g, t, r, n);
    SameBlocksAndTail(u, s);
  }

  /** Decrypting after encrypting, and encrypting after decrypting, restores every buffer of any length. */
  lemma ProcessRoundTrip(encrypt: bool, key: seq<byte>, tweakKey: seq<byte>, hi: u64, lo: u64,
                         sectorSize: u32, sectorOffset: u64, s: seq<byte>)
    requires |key| >= KEY_LEN && |tweakKey| >= KEY_LEN
    ensures var c, tw := Aes128(key), Aes128(tweakKey);
            Process(!encrypt, c, tw, hi, lo, sectorSize, sectorOffset,
                    Process(encrypt, c, tw, hi, lo, sectorSize, sectorOffset, s)) == s
  {
    hide Aes128, Xts, Inverse;
    Aes128Inverse(key);
    XtsInverts(Aes128(key), encrypt,
               Alpha(SectorTweak(Aes128(tweakKey), hi, lo), StartBlock(sectorSize, sectorOffset)), s);
  }

  /** Blocks and tail of a string that starts with whole blocks. */
  lemma BlockOfJoin(s: seq<byte>, u: seq<byte>, b: nat)
    requires |s| % BLOCK_LEN == 0 && BLOCK_LEN * (b + 1) <= |s + u|
    ensures BLOCK_LEN * (b + 1) <= |s| ==> BlockAt(s + u, b) == BlockAt(s, b)
    ensures BLOCK_LEN * (b + 1) > |s| ==>
      b >= |s| / BLOCK_LEN && BLOCK_LEN * (b - |s| / BLOCK_LEN + 1) <= |u|
      && BlockAt(s + u, b) == BlockAt(u, b - |s| / BLOCK_LEN)
  {
    assert |s| == BLOCK_LEN * (|s| / BLOCK_LEN);
  }

  lemma TailOfJoin(s: seq<byte>, u: seq<byte>)
    requires |s| % BLOCK_LEN == 0
    ensures |s + u| / BLOCK_LEN == |s| / BLOCK_LEN + |u| / BLOCK_LEN
    ensures (s + u)[BLOCK_LEN * (|s + u| / BLOCK_LEN)..] == u[BLOCK_LEN * (|u| / BLOCK_LEN)..]
  {
    Division.AddBlocks(|u|, |s|);
    assert |s| == BLOCK_LEN * (|s| / BLOCK_LEN);
  }

  lemma XtsSplits(f: Block -> Block, t: Block, s: seq<byte>, u: seq<byte>)
    requires |s| % BLOCK_LEN == 0
    ensures Xts(f, t, s + u) == Xts(f, t, s) + Xts(f, Alpha(t, |s| / BLOCK_LEN), u)
  {
    hide XtsBlock, XtsUpTo, BlockAt, Alpha;
    var m, n := |s| / BLOCK_LEN, |s + u| / BLOCK_LEN;
    var t' := Alpha(t, m);
    var l, x, y := Xts(f, t, s + u), Xts(f, t, s), Xts(f, t', u);
    forall b: nat | BLOCK_LEN * (b + 1) <= |s + u| ensures BlockAt(l, b) == BlockAt(x + y, b) {
      XtsUpToBlock(f, t, s + u, n, b);
      BlockOfJoin(s, u, b);
      BlockOfJoin(x, y, b);
      if BLOCK_LEN * (b + 1) <= |s| {
        XtsUpToBlock(f, t, s, m, b);
      } else {
        XtsUpToBlock(f, t', u, |u| / BLOCK_LEN, b - m);
        AlphaAdds(t, m, b - m);
      }
    }
    TailOfJoin(s, u);
    TailOfJoin(x, y);
    XtsUpToRest(f, t, s + u, n);
    XtsUpToRest(f, t', u, |u| / BLOCK_LEN);
    SameBlocksAndTail(l, x + y);
  }

  /** One call over a range is any split into consecutive pieces, each started at its own block. */
  lemma ProcessSplits(encrypt: bool, c: Cipher, tw: Cipher, hi: u64, lo: u64,
                      sectorSize: u32, sectorOffset: u64, s: seq<byte>, u: seq<byte>)
    requires |s| % BLOCK_LEN == 0 && sectorOffset + |s| <= sectorSize
    ensures Process(encrypt, c, tw, hi, lo, sectorSize, sectorOffset, s + u)
         == Process(encrypt, c, tw, hi, lo, sectorSize, sectorOffset, s)
            + Process(encrypt, c, tw, hi, lo, sectorSize, sectorOffset + |s|, u)
  {
    hide Xts;
    var t, k := SectorTweak(tw, hi, lo), StartBlock(sectorSize, sectorOffset);
    assert StartBlock(sectorSize, sectorOffset + |s|) == k + |s| / BLOCK_LEN;
    XtsSplits(Direction(c, encrypt), Alpha(t, k), s, u);
    AlphaAdds(t, k, |s| / BLOCK_LEN);
  }

  // ---- the procedure ----

  lemma XtsUpToNext(f: Block -> Block, t: Block, s: seq<byte>, n: nat)
    requires BLOCK_LEN * (n + 1) <= |s|
    ensures XtsUpTo(f, t, s, n + 1) == Put(XtsUpTo(f, t, s, n), BLOCK_LEN * n, XtsBlockAt(f, t, s, n))
    ensures BlockAt(XtsUpTo(f, t, s, n), n) == BlockAt(s, n)
  {
    hide XtsBlockAt;
    var l, r := XtsUpTo(f, t, s, n + 1), Put(XtsUpTo(f, t, s, n), BLOCK_LEN * n, XtsBlockAt(f, t, s, n));
    forall i | 0 <= i < |s| ensures l[i] == r[i] {
      if BLOCK_LEN * n <= i < BLOCK_LEN * (n + 1) {
        assert i / BLOCK_LEN == n && i % BLOCK_LEN == i - BLOCK_LEN * n;
      }
    }
  }

  lemma XtsUpToNone(f: Block -> Block, t: Block, s: seq<byte>)
    ensures XtsUpTo(f, t, s, 0) == s
  { }

  /** xor, cipher, xor on the block at `at`: the body of the loop when the block is not skipped. */
  method XtsBlockInPlace(encrypt: bool, key: Context, buffer: array<byte>, at: nat, tweak: array<byte>)
    requires key.Valid() && at + BLOCK_LEN <= buffer.Length && tweak.Length == BLOCK_LEN
    requires buffer != key.roundKey && buffer != tweak
    modifies buffer
    ensures buffer[..] == Put(old(buffer[..]), at,
                              XtsBlock(Direction(key.Cipher(), encrypt), tweak[..], old(buffer[at..at + BLOCK_LEN])))
  {
    hide WithRoundKey, XorBlock, Put;
    ghost var was, t: Block, f := buffer[..], tweak[..], Direction(key.Cipher(), encrypt);
    ghost var b: Block := buffer[at..at + BLOCK_LEN];
    assert tweak[0..BLOCK_LEN] == t;
    XorInPlace(buffer, at, tweak, 0);
    PutInArray(buffer, was, at, XorBlock(b, t));
    if encrypt {
      key.EcbEncrypt(buffer, at);
    } else {
      key.EcbDecrypt(buffer, at);
    }
    PutInArray(buffer, was, at, f(XorBlock(b, t)));
    assert tweak[0..BLOCK_LEN] == t;
    XorInPlace(buffer, at, tweak, 0);
  }

  /** Bytes processed from block `start` of a sector on. */
  function FromBlock(encrypt: bool, c: Cipher, t: Block, start: nat, s: seq<byte>): (r: seq<byte>)
    ensures |r| == |s|
  {
    Xts(Direction(c, encrypt), Alpha(t, start), s)
  }

  /** Block `j` of the bytes `s` that were at `at`, once those before it are processed. */
  method NextBlock(encrypt: bool, key: Context, buffer: array<byte>, at: nat, j: nat, tweak: array<byte>,
                   ghost was: seq<byte>, ghost t: Block, ghost s: seq<byte>)
    requires key.Valid() && tweak.Length == BLOCK_LEN && buffer != key.roundKey && buffer != tweak
    requires at + |s| <= |was| == buffer.Length && BLOCK_LEN * (j + 1) <= |s| && tweak[..] == Alpha(t, j)
    requires buffer[..] == Put(was, at, XtsUpTo(Direction(key.Cipher(), encrypt), t, s, j))
    modifies buffer
    ensures buffer[..] == Put(was, at, XtsUpTo(Direction(key.Cipher(), encrypt), t, s, j + 1))
  {
    hide WithRoundKey, XtsBlock, XtsUpTo, Alpha, Put;
    ghost var f := Direction(key.Cipher(), encrypt);
    var p := BLOCK_LEN * j;
    PutInside(was, at, XtsUpTo(f, t, s, j), p, XtsBlockAt(f, t, s, j));
    XtsUpToNext(f, t, s, j);
    assert buffer[..][at + p..at + p + BLOCK_LEN] == buffer[at + p..at + p + BLOCK_LEN];
    XtsBlockInPlace(encrypt, key, buffer, at + p, tweak);
  }

  /** A buffer with `len` of its bytes processed from the block the offset lies in. */
  function WithSector(encrypt: bool, c: Cipher, t: Block, sectorOffset: nat, buf: seq<byte>,
                      at: nat, len: nat): seq<byte>
    requires at + len <= |buf|
  {
    Put(buf, at, FromBlock(encrypt, c, t, sectorOffset / BLOCK_LEN, buf[at..at + len]))
  }

  /**
   The inner loop for one sector: blocks before the start are skipped by stepping the tweak only, then
   `len / 16` blocks are processed. `so` is what is left of the sector offset.
   */
  method ProcessSector(encrypt: bool, key: Context, tweak: array<byte>, buffer: array<byte>, at: nat, len: nat,
                       sectorOffset: nat) returns (so: nat)
    requires key.Valid() && at + len <= buffer.Length && tweak.Length == BLOCK_LEN
    requires buffer != key.roundKey && buffer != tweak && tweak != key.roundKey
    modifies buffer, tweak
    ensures so <= sectorOffset && (len >= BLOCK_LEN ==> so < BLOCK_LEN)
    ensures buffer[..] == WithSector(encrypt, key.Cipher(), old(tweak[..]), sectorOffset, old(buffer[..]), at, len)
  {
    hide WithRoundKey, XtsBlock, XtsUpTo, Double, Put;
    ghost var was, s, t0: Block := buffer[..], buffer[at..at + len], tweak[..];
    ghost var f, start := Direction(key.Cipher(), encrypt), sectorOffset / BLOCK_LEN;
    ghost var t := Alpha(t0, start);
    var j := 0;
    so := sectorOffset;
    PutSame(was, at, len);
    XtsUpToNone(f, t, s);
    while j < len / BLOCK_LEN
      invariant 0 <= j <= len / BLOCK_LEN && 0 <= so <= sectorOffset
      invariant j > 0 ==> so < BLOCK_LEN
      invariant tweak[..] == Alpha(t0, start - so / BLOCK_LEN + j)
      invariant buffer[..] == Put(was, at, XtsUpTo(f, t, s, j))
      decreases len / BLOCK_LEN - j + so / BLOCK_LEN
    {
      if so / BLOCK_LEN > j {
        if so > BLOCK_LEN {
          so := so - BLOCK_LEN;
        } else {
          so := 0;
        }
      } else {
        AlphaAdds(t0, start, j);
        NextBlock(encrypt, key, buffer, at, j, tweak, was, t, s);
        j := j + 1;
      }
      StepTweak(tweak);
    }
  }

  /** geniv on the sector number, encrypted under the tweak key. */
  method EncryptSectorNumber(ctx: Context, hi: u64, lo: u64) returns (tweak: array<byte>)
    requires ctx.Valid()
    ensures fresh(tweak) && tweak.Length == BLOCK_LEN && tweak[..] == ctx.Cipher().enc(GenIv(hi, lo))
  {
    hide WithRoundKey, GenIv;
    tweak := new byte[BLOCK_LEN];
    GenIvInto(tweak, hi, lo);
    assert tweak[0..BLOCK_LEN] == tweak[..];
    PutWhole(tweak[..], ctx.Cipher().enc(tweak[..]));
    ctx.EcbEncrypt(tweak, 0);
  }

  /** Addition of one on an unsigned 64-bit integer. */
  function Next64(x: u64): u64 {
    if x == MAX64 then 0 else x + 1
  }

  /** The same under a sector number. */
  function WithNumber(encrypt: bool, c: Cipher, tw: Cipher, hi: u64, lo: u64, sectorOffset: nat,
                      buf: seq<byte>, at: nat, len: nat): seq<byte>
    requires at + len <= |buf|
  {
    WithSector(encrypt, c, tw.enc(GenIv(hi, lo)), sectorOffset, buf, at, len)
  }

  /** One iteration of the outer loop: the tweak of a sector number, then the inner loop. */
  method ProcessSectorNumber(encrypt: bool, key: Context, tweakKey: Context, buffer: array<byte>, at: nat, len: nat,
                             hi: u64, lo: u64, sectorOffset: nat) returns (so: nat)
    requires key.Valid() && tweakKey.Valid() && at + len <= buffer.Length
    requires buffer != key.roundKey && buffer != tweakKey.roundKey
    modifies buffer
    ensures so <= sectorOffset && (len >= BLOCK_LEN ==> so < BLOCK_LEN)
    ensures buffer[..]
         == WithNumber(encrypt, key.Cipher(), tweakKey.Cipher(), hi, lo, sectorOffset, old(buffer[..]), at, len)
  {
    hide WithRoundKey, WithSector, GenIv;
    var tweak := EncryptSectorNumber(tweakKey, hi, lo);
    assert tweak[..] == tweakKey.Cipher().enc(GenIv(hi, lo));
    so := ProcessSector(encrypt, key, tweak, buffer, at, len, sectorOffset);
  }

  /** How many sector numbers a call goes through. */
  function SectorsToRead(len: u64, sectorSize: u32): nat
    requires len == 0 || sectorSize > 0
  {
    if len == 0 then 0 else if len < sectorSize then 1 else len / sectorSize
  }

  /** The whole blocks in `len` bytes. */
  function Window(len: u64): (w: u64)
    ensures w <= len && (w == 0 || w >= BLOCK_LEN)
  {
    BLOCK_LEN * (len / BLOCK_LEN)
  }

  /** Where the window of sector number `n` begins: each takes `w` bytes, behind those before it. */
  function WindowAt(w: nat, n: nat): nat {
    w * n
  }

  lemma WindowsJoin(w: nat, n: nat)
    ensures WindowAt(w, 0) == 0 && WindowAt(w, n + 1) == WindowAt(w, n) + w
  {
    assert w * (n + 1) == w * n + w;
  }

  lemma WindowsFit(w: nat, i: nat, n: nat)
    requires i < n
    ensures WindowAt(w, i) + w <= WindowAt(w, n)
  {
    Division.Multiply(w, i, n);
  }

  lemma NoWindow(n: nat)
    ensures WindowAt(0, n) == 0
  { }

  /** How many bytes a call works on. */
  function Reach(len: u64, sectorSize: u32): nat
    requires len == 0 || sectorSize > 0
  {
    WindowAt(Window(len), SectorsToRead(len, sectorSize))
  }

  lemma SectorsRead(len: u64, sectorSize: u32)
    requires len > 0 && sectorSize > 0
    ensures if len < 2 * sectorSize then SectorsToRead(len, sectorSize) == 1 else SectorsToRead(len, sectorSize) >= 2
  {
    if sectorSize <= len < 2 * sectorSize {
      Division.DivUnique(len, sectorSize, 1, len - sectorSize);
    } else if len >= 2 * sectorSize {
      Division.AddMultiple(len - 2 * sectorSize, sectorSize, 2);
    }
  }

  /** A call keeps to its `len` bytes exactly below two sectors, but for lengths without a whole block. */
  lemma StaysInsideIff(len: u64, sectorSize: u32)
    requires len == 0 || sectorSize > 0
    ensures Reach(len, sectorSize) <= len <==> len < BLOCK_LEN || len < 2 * sectorSize
  {
    hide SectorsToRead, WindowAt;
    var w := Window(len);
    if len < BLOCK_LEN {
      NoWindow(SectorsToRead(len, sectorSize));
    } else {
      SectorsRead(len, sectorSize);
      WindowsJoin(w, 0);
      WindowsJoin(w, 1);
      if SectorsToRead(len, sectorSize) > 2 {
        WindowsFit(w, 2, SectorsToRead(len, sectorSize));
      }
    }
  }

  /** position[1] after `i` sector numbers. */
  function LowAt(lo: u64, i: nat): u64 {
    (lo + i) % TWO64
  }

  /** position[0] after `i` sector numbers: it counts how often the low word has been at its last value. */
  function HighAt(hi: u64, lo: u64, i: nat): u64 {
    (hi + (lo + i) / TWO64) % TWO64
  }

  /** The tweak of block 0 under the sector number `i` after the first. */
  function SectorTweakAt(tw: Cipher, hi: u64, lo: u64, i: nat): Block {
    tw.enc(GenIv(HighAt(hi, lo, i + 1), LowAt(lo, i)))
  }

  /** What the first `n` sector numbers make of their windows. */
  function ProcessSectors(encrypt: bool, c: Cipher, tw: Cipher, hi: u64, lo: u64, start: nat,
                          w: nat, n: nat, s: seq<byte>): (r: seq<byte>)
    requires WindowAt(w, n) <= |s|
    ensures |r| == WindowAt(w, n)
    decreases n
  {
    if n == 0 then []
    else
      WindowsJoin(w, n - 1);
      var at := WindowAt(w, n - 1);
      ProcessSectors(encrypt, c, tw, hi, lo, start, w, n - 1, s)
      + FromBlock(encrypt, c, SectorTweakAt(tw, hi, lo, n - 1), if n == 1 then start else 0, s[at..at + w])
  }

  lemma NextSectorProcessed(encrypt: bool, c: Cipher, tw: Cipher, hi: u64, lo: u64, start: nat,
                            w: nat, n: nat, s: seq<byte>)
    requires WindowAt(w, n) + w <= |s|
    ensures WindowAt(w, n + 1) == WindowAt(w, n) + w
    ensures ProcessSectors(encrypt, c, tw, hi, lo, start, w, n + 1, s)
         == ProcessSectors(encrypt, c, tw, hi, lo, start, w, n, s)
            + FromBlock(encrypt, c, SectorTweakAt(tw, hi, lo, n), if n == 0 then start else 0,
                        s[WindowAt(w, n)..WindowAt(w, n) + w])
  {
    hide FromBlock, SectorTweakAt, WindowAt;
    WindowsJoin(w, n);
  }

  lemma NoneProcessed(encrypt: bool, c: Cipher, tw: Cipher, hi: u64, lo: u64, start: nat, w: nat, s: seq<byte>)
    ensures WindowAt(w, 0) == 0 && ProcessSectors(encrypt, c, tw, hi, lo, start, w, 0, s) == []
  { }

  /** A buffer after the first `n` sector numbers of a call. */
  function ProcessedUpTo(encrypt: bool, c: Cipher, tw: Cipher, hi: u64, lo: u64, start: nat,
                         w: nat, n: nat, room: nat, buf: seq<byte>, at: nat): (r: seq<byte>)
    requires WindowAt(w, n) <= room && at + room <= |buf|
    ensures |r| == |buf|
  {
    Put(buf, at, ProcessSectors(encrypt, c, tw, hi, lo, start, w, n, buf[at..at + room]))
  }

  /** A buffer after a call on `len` bytes at `at`. */
  function Processed(encrypt: bool, c: Cipher, tw: Cipher, hi: u64, lo: u64, sectorSize: u32, sectorOffset: u64,
                     len: u64, buf: seq<byte>, at: nat): (r: seq<byte>)
    requires (len == 0 || sectorSize > 0) && at + Reach(len, sectorSize) <= |buf|
    ensures |r| == |buf|
  {
    ProcessedUpTo(encrypt, c, tw, hi, lo, StartBlock(sectorSize, sectorOffset), Window(len),
                  SectorsToRead(len, sectorSize), Reach(len, sectorSize), buf, at)
  }

  /** Window `i` among the first `n`. */
  lemma {:induction false} WindowProcessed(encrypt: bool, c: Cipher, tw: Cipher, hi: u64, lo: u64, start: nat,
                                           w: nat, n: nat, s: seq<byte>, i: nat)
    requires WindowAt(w, n) <= |s| && i < n
    ensures WindowAt(w, i) + w <= WindowAt(w, n)
    ensures var p := WindowAt(w, i);
            ProcessSectors(encrypt, c, tw, hi, lo, start, w, n, s)[p..p + w]
            == FromBlock(encrypt, c, SectorTweakAt(tw, hi, lo, i), if i == 0 then start else 0, s[p..p + w])
    decreases n
  {
    hide FromBlock, SectorTweakAt, WindowAt, ProcessSectors;
    WindowsFit(w, i, n);
    WindowsFit(w, n - 1, n);
    NextSectorProcessed(encrypt, c, tw, hi, lo, start, w, n - 1, s);
    var before, p := ProcessSectors(encrypt, c, tw, hi, lo, start, w, n - 1, s), WindowAt(w, i);
    var last := FromBlock(encrypt, c, SectorTweakAt(tw, hi, lo, n - 1), if n == 1 then start else 0,
                          s[WindowAt(w, n - 1)..WindowAt(w, n - 1) + w]);
    if i < n - 1 {
      WindowsFit(w, i, n - 1);
      WindowProcessed(encrypt, c, tw, hi, lo, start, w, n - 1, s, i);
      assert (before + last)[p..p + w] == before[p..p + w];
    } else {
      assert (before + last)[p..p + w] == last;
    }
  }

  /**
   What a call does at any length, with nothing abbreviated: sector number `i` after the first takes the
   `len / 16` blocks behind those of the numbers before it. Its low word is `lo + i`, its high word counts how
   often the low one was at its last value, and the start offset counts for the first only.
   */
  lemma ProcessedWritten(encrypt: bool, c: Cipher, tw: Cipher, hi: u64, lo: u64, sectorSize: u32, sectorOffset: u64,
                         len: u64, buf: seq<byte>, at: nat, i: nat, b: nat)
    requires 0 < len && 0 < sectorSize && at + Reach(len, sectorSize) <= |buf| && b < len / 16
    requires i < if len < sectorSize then 1 else len / sectorSize
    ensures var p := at + 16 * (len / 16) * i + 16 * b;
            var number := GenIv((hi + (lo + i + 1) / 0x1_0000_0000_0000_0000) % 0x1_0000_0000_0000_0000,
                                (lo + i) % 0x1_0000_0000_0000_0000);
            var start := if i > 0 || sectorOffset > sectorSize then 0 else sectorOffset / 16;
            var t := Alpha(tw.enc(number), start + b);
            && at <= p && p + 16 <= at + Reach(len, sectorSize)
            && var x := XorBlock(buf[p..p + 16], t);
            Processed(encrypt, c, tw, hi, lo, sectorSize, sectorOffset, len, buf, at)[p..p + 16]
            == XorBlock(if encrypt then c.enc(x) else c.dec(x), t)
  {
    hide XorBlock, Alpha, GenIv, WindowAt, ProcessSectors, Xts, Put;
    var w, n, room := Window(len), SectorsToRead(len, sectorSize), Reach(len, sectorSize);
    WindowsFit(w, i, n);
    WindowStarts(w, i);
    var q, start := WindowAt(w, i), if i == 0 then StartBlock(sectorSize, sectorOffset) else 0;
    var t0, s := SectorTweakAt(tw, hi, lo, i), buf[at..at + room];
    WindowProcessed(encrypt, c, tw, hi, lo, StartBlock(sectorSize, sectorOffset), w, n, s, i);
    XtsClosedForm(Direction(c, encrypt), t0, start, s[q..q + w], b);
    BlockOfWindow(s, q, w, b);
    var r := ProcessSectors(encrypt, c, tw, hi, lo, StartBlock(sectorSize, sectorOffset), w, n, s);
    BlockOfWindow(r, q, w, b);
    SliceOfSlice(buf, at, room, q + 16 * b, q + 16 * b + 16);
    SliceOfPut(buf, at, r, q + 16 * b);
  }

  lemma WindowStarts(w: nat, i: nat)
    ensures WindowAt(w, i) == w * i
  { }

  lemma BlockOfWindow(s: seq<byte>, q: nat, w: nat, b: nat)
    requires q + w <= |s| && 16 * (b + 1) <= w
    ensures BlockAt(s[q..q + w], b) == s[q + 16 * b..q + 16 * b + 16]
  {
    SliceOfSlice(s, q, w, 16 * b, 16 * b + 16);
  }

  lemma SliceOfPut(s: seq<byte>, at: nat, x: seq<byte>, p: nat)
    requires at + |x| <= |s| && p + 16 <= |x|
    ensures Put(s, at, x)[at + p..at + p + 16] == x[p..p + 16]
  { }

  /** Below two sectors a call does to its bytes what `Process` says. */
  lemma OneSectorCall(encrypt: bool, c: Cipher, tw: Cipher, hi: u64, lo: u64, sectorSize: u32, sectorOffset: u64,
                      len: u64, buf: seq<byte>, at: nat)
    requires (len == 0 || len < 2 * sectorSize) && at + len <= |buf|
    ensures Reach(len, sectorSize) <= len
    ensures Processed(encrypt, c, tw, hi, lo, sectorSize, sectorOffset, len, buf, at)
         == Put(buf, at, Process(encrypt, c, tw, hi, lo, sectorSize, sectorOffset, buf[at..at + len]))
  {
    hide Xts, GenIv, Put, SectorTweakAt, SectorTweak, WindowAt, SectorsToRead, ProcessSectors;
    var w, f, start := Window(len), Direction(c, encrypt), StartBlock(sectorSize, sectorOffset);
    StaysInsideIff(len, sectorSize);
    var t := Alpha(SectorTweak(tw, hi, lo), start);
    var s, u := buf[at..at + w], buf[at + w..at + len];
    assert buf[at..at + len] == s + u;
    XtsSplits(f, t, s, u);
    XtsOfTail(f, Alpha(t, |s| / BLOCK_LEN), u);
    PutTail(buf, at, Xts(f, t, s), u);
    if len > 0 {
      SectorsRead(len, sectorSize);
      FirstSector(encrypt, c, tw, hi, lo, start, w, s);
    } else {
      NoneRead(sectorSize);
      NoneProcessed(encrypt, c, tw, hi, lo, start, w, s);
    }
  }

  lemma FirstSector(encrypt: bool, c: Cipher, tw: Cipher, hi: u64, lo: u64, start: nat, w: nat, s: seq<byte>)
    requires |s| == w
    ensures WindowAt(w, 1) == w
    ensures ProcessSectors(encrypt, c, tw, hi, lo, start, w, 1, s)
         == Xts(Direction(c, encrypt), Alpha(SectorTweak(tw, hi, lo), start), s)
  {
    hide Xts, SectorTweakAt, SectorTweak, WindowAt, ProcessSectors;
    NoneProcessed(encrypt, c, tw, hi, lo, start, w, s);
    NextSectorProcessed(encrypt, c, tw, hi, lo, start, w, 0, s);
    FirstNumber(tw, hi, lo);
    assert s[0..0 + w] == s;
  }

  lemma FirstNumber(tw: Cipher, hi: u64, lo: u64)
    ensures SectorTweakAt(tw, hi, lo, 0) == SectorTweak(tw, hi, lo)
  {
    hide GenIv;
  }

  lemma XtsOfTail(f: Block -> Block, t: Block, s: seq<byte>)
    requires |s| < BLOCK_LEN
    ensures Xts(f, t, s) == s
  {
    XtsUpToNone(f, t, s);
  }

  lemma PutTail(buf: seq<byte>, at: nat, x: seq<byte>, u: seq<byte>)
    requires at + |x| + |u| <= |buf| && u == buf[at + |x|..at + |x| + |u|]
    ensures Put(buf, at, x + u) == Put(buf, at, x)
  { }

  /** The number behind the next: the high word has gone up when the low one was at its last value. */
  lemma NextNumber(hi: u64, lo: u64, i: nat)
    ensures var h, l := HighAt(hi, lo, i), LowAt(lo, i);
            && HighAt(hi, lo, i + 1) == (if l > Next64(l) then Next64(h) else h)
            && LowAt(lo, i + 1) == Next64(l)
  {
    var q, l := (lo + i) / TWO64, LowAt(lo, i);
    if l == MAX64 {
      Division.DivUnique(lo + i + 1, TWO64, q + 1, 0);
    } else {
      Division.DivUnique(lo + i + 1, TWO64, q, l + 1);
    }
  }

  lemma NumberAtStart(hi: u64, lo: u64)
    ensures HighAt(hi, lo, 0) == hi && LowAt(lo, 0) == lo
  { }

  /** One more window behind those done. */
  lemma PutNext(was: seq<byte>, at: nat, done: seq<byte>, x: seq<byte>)
    requires at + |done| + |x| <= |was|
    ensures Put(Put(was, at, done), at + |done|, x) == Put(was, at, done + x)
    ensures Put(was, at, done)[at + |done|..at + |done| + |x|] == was[at + |done|..at + |done| + |x|]
  { }

  /** The sector offset counts for the first sector number only. */
  predicate Carried(start: nat, w: nat, n: nat, so: nat) {
    if n == 0 then so / BLOCK_LEN == start else w == 0 || so < BLOCK_LEN
  }

  lemma CarriedOn(sectorSize: u32, sectorOffset: u64, w: nat)
    ensures Carried(StartBlock(sectorSize, sectorOffset), w, 0, if sectorOffset > sectorSize then 0 else sectorOffset)
    ensures forall start, n, so: nat :: n > 0 && (w == 0 || so < BLOCK_LEN) ==> Carried(start, w, n, so)
  { }

  /** After one more sector number. */
  lemma SectorDone(encrypt: bool, c: Cipher, tw: Cipher, hi: u64, lo: u64, start: nat, w: nat, n: nat, room: nat,
                   was: seq<byte>, at: nat, so: nat, before: seq<byte>, after: seq<byte>)
    requires WindowAt(w, n) + w <= room && at + room <= |was| && Carried(start, w, n, so)
    requires before == ProcessedUpTo(encrypt, c, tw, hi, lo, start, w, n, room, was, at)
    requires after
          == WithNumber(encrypt, c, tw, HighAt(hi, lo, n + 1), LowAt(lo, n), so, before, at + WindowAt(w, n), w)
    ensures WindowAt(w, n + 1) <= room
    ensures after == ProcessedUpTo(encrypt, c, tw, hi, lo, start, w, n + 1, room, was, at)
  {
    hide Put, FromBlock, HighAt, LowAt, GenIv, WindowAt, ProcessSectors;
    var p, t, s := WindowAt(w, n), SectorTweakAt(tw, hi, lo, n), was[at..at + room];
    var done, window := ProcessSectors(encrypt, c, tw, hi, lo, start, w, n, s), s[p..p + w];
    var x := FromBlock(encrypt, c, t, so / BLOCK_LEN, window);
    PutNext(was, at, done, x);
    SliceOfSlice(was, at, room, p, p + w);
    if w == 0 {
      assert x == [] == FromBlock(encrypt, c, t, if n == 0 then start else 0, window);
    }
    NextSectorProcessed(encrypt, c, tw, hi, lo, start, w, n, s);
  }

  lemma NoneDone(encrypt: bool, c: Cipher, tw: Cipher, hi: u64, lo: u64, start: nat, w: nat, room: nat,
                 was: seq<byte>, at: nat)
    requires at + room <= |was|
    ensures WindowAt(w, 0) == 0 && ProcessedUpTo(encrypt, c, tw, hi, lo, start, w, 0, room, was, at) == was
  {
    hide ProcessSectors;
    NoneProcessed(encrypt, c, tw, hi, lo, start, w, was[at..at + room]);
    PutNone(was, at);
  }

  /**
   aes_xtsn_process; `direction` is `encrypt`. From two sectors on the inner loop takes all blocks of `len`
   for every sector number, behind those it took before, so the memory has to hold that many.
   */
  method XtsnProcess(encrypt: bool, buffer: array<byte>, at: nat, len: u64, key: seq<byte>, tweakIn: seq<byte>,
                     sectorOffsetHi: u64, sectorOffsetLo: u64, sectorSize: u32, sectorOffset: u64)
    requires |key| >= KEY_LEN && |tweakIn| >= KEY_LEN
    requires (len == 0 || sectorSize > 0) && at + Reach(len, sectorSize) <= buffer.Length
    modifies buffer
    ensures buffer[..] == Processed(encrypt, Aes128(key), Aes128(tweakIn), sectorOffsetHi, sectorOffsetLo,
                                    sectorSize, sectorOffset, len, old(buffer[..]), at)
  {
    hide Aes128, Put, GenIv, Window, WindowAt, ProcessedUpTo, SectorsToRead, WithNumber, HighAt, LowAt, Carried;
    ghost var was, room := buffer[..], Reach(len, sectorSize);
    ghost var c, tw, k0 := Aes128(key), Aes128(tweakIn), StartBlock(sectorSize, sectorOffset);
    var sectorsToRead, w, i := SectorsToRead(len, sectorSize), Window(len), 0;
    NoneDone(encrypt, c, tw, sectorOffsetHi, sectorOffsetLo, k0, w, room, was, at);
    if len == 0 {
      NoneRead(sectorSize);
      return;
    }
    var start: nat := if sectorOffset > sectorSize then 0 else sectorOffset;
    var keyCtx := new Context(key);
    var tweakCtx := new Context(tweakIn);
    var hi, lo: u64 := sectorOffsetHi, sectorOffsetLo;
    NumberAtStart(hi, lo);
    CarriedOn(sectorSize, sectorOffset, w);
    hide StartBlock;
    while i < sectorsToRead
      invariant 0 <= i <= sectorsToRead && WindowAt(w, i) <= room
      invariant keyCtx.Cipher() == c && tweakCtx.Cipher() == tw && keyCtx.Valid() && tweakCtx.Valid()
      invariant hi == HighAt(sectorOffsetHi, sectorOffsetLo, i) && lo == LowAt(sectorOffsetLo, i)
      invariant Carried(k0, w, i, start)
      invariant buffer[..] == ProcessedUpTo(encrypt, c, tw, sectorOffsetHi, sectorOffsetLo, k0, w, i, room, was, at)
    {
      NextNumber(sectorOffsetHi, sectorOffsetLo, i);
      WindowsFit(w, i, sectorsToRead);
      if lo > Next64(lo) {
        hi := Next64(hi);
      }
      ghost var before, so := buffer[..], start;
      start := ProcessSectorNumber(encrypt, keyCtx, tweakCtx, buffer, at + WindowAt(w, i), w, hi, lo, start);
      SectorDone(encrypt, c, tw, sectorOffsetHi, sectorOffsetLo, k0, w, i, room, was, at, so, before, buffer[..]);
      lo := Next64(lo);
      i := i + 1;
    }
  }

  lemma NoneRead(sectorSize: u32)
    ensures SectorsToRead(0, sectorSize) == 0
  { }

  lemma PutNone(s: seq<byte>, at: nat)
    requires at <= |s|
    ensures Put(s, at, []) == s
  { }
}
