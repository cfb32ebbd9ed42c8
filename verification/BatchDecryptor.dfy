/**
 R.N.D: whole-buffer decryption of a dump, xts_crypto.cpp and the sector loop of main.c. It runs over the
 buffer of a sector three times where ccrypto.c goes block by block.
 */
module BatchDecryptor {
  import opened Bytes
  import opened BlockCipher
  import opened Tweak
  import opened Xtsn
  import opened PlainView
  import opened ReadLoop
  import opened ReadLimits
  import Division
  import opened KeySchedule
  import Driver

  // ---- the tweak step as xts_crypto.cpp writes it ----

  function StepByte(b: byte, before: byte): byte {
    ((b << 1) & 0xfe) | (if before & 0x80 != 0 then 1 else 0)
  }

  function StepFirstByte(b: byte, lastHigh: bool): byte {
    ((b << 1) & 0xfe) ^ (if lastHigh then 0x87 else 0)
  }

  lemma StepByteIsShift(b: byte, before: byte, lastHigh: bool)
    ensures StepByte(b, before) == ShiftByte(b, before)
    ensures StepFirstByte(b, lastHigh) == if lastHigh then Fold(ShiftByte(b, 0)) else ShiftByte(b, 0)
  { }

  lemma StepsAreDouble(was: Block, now: Block)
    requires forall k :: 0 < k < BLOCK_LEN ==> now[k] == Shift(was)[k]
    requires now[0] == if HighBit(was[15]) then Fold(ShiftByte(was[0], 0)) else ShiftByte(was[0], 0)
    ensures now == Double(was)
  {
    hide ShiftByte, Fold, HighBit;
  }

  method NextTweak(buf: array<byte>)
    requires buf.Length == BLOCK_LEN
    modifies buf
    ensures buf[..] == Double(old(buf[..]))
  {
    hide StepByte, StepFirstByte, ShiftByte, Fold, HighBit, Shift, Double;
    ghost var was: Block := buf[..];
    var lastHigh := HighBit(buf[15]);
    var j := 15;
    while j > 0
      invariant 0 <= j <= 15
      invariant forall k :: 0 <= k < BLOCK_LEN ==> buf[k] == if k <= j then was[k] else Shift(was)[k]
    {
      StepByteIsShift(was[j], was[j - 1], lastHigh);
      ShiftAt(was, j);
      assert buf[j] == was[j] && buf[j - 1] == was[j - 1];
      buf[j] := StepByte(buf[j], buf[j - 1]);
      j := j - 1;
    }
    StepByteIsShift(was[0], 0, lastHigh);
    assert buf[0] == was[0];
    buf[0] := StepFirstByte(buf[0], lastHigh);
    StepsAreDouble(was, buf[..]);
  }

  // ---- the three passes ----

  /** The first `n` blocks xored with the tweaks `alpha^i * t`. */
  function TweakedUpTo(t: Block, s: seq<byte>, n: nat): (r: seq<byte>)
    requires BLOCK_LEN * n <= |s|
    ensures |r| == |s|
  {
    seq(|s|, i requires 0 <= i < |s| =>
      if i < BLOCK_LEN * n then XorBlock(BlockAt(s, i / BLOCK_LEN), Alpha(t, i / BLOCK_LEN))[i % BLOCK_LEN] else s[i])
  }

  function Tweaked(t: Block, s: seq<byte>): (r: seq<byte>)
    ensures |r| == |s|
  {
    TweakedUpTo(t, s, |s| / BLOCK_LEN)
  }

  /** ECB: every block on its own. */
  function Ecb(f: Block -> Block, s: seq<byte>): (r: seq<byte>)
    requires |s| % BLOCK_LEN == 0
    ensures |r| == |s|
  {
    seq(|s|, i requires 0 <= i < |s| => f(BlockAt(s, i / BLOCK_LEN))[i % BLOCK_LEN])
  }

  lemma TweakedBlock(t: Block, s: seq<byte>, n: nat, b: nat)
    requires BLOCK_LEN * n <= |s| && b < n
    ensures BlockAt(TweakedUpTo(t, s, n), b) == XorBlock(BlockAt(s, b), Alpha(t, b))
  {
    hide XorBlock, Alpha;
    var r, x := TweakedUpTo(t, s, n), XorBlock(BlockAt(s, b), Alpha(t, b));
    forall i | 0 <= i < BLOCK_LEN ensures BlockAt(r, b)[i] == x[i] {
      assert (BLOCK_LEN * b + i) / BLOCK_LEN == b && (BLOCK_LEN * b + i) % BLOCK_LEN == i;
      assert BlockAt(r, b)[i] == r[BLOCK_LEN * b + i];
    }
  }

  lemma EcbBlock(f: Block -> Block, s: seq<byte>, b: nat)
    requires |s| % BLOCK_LEN == 0 && BLOCK_LEN * (b + 1) <= |s|
    ensures BlockAt(Ecb(f, s), b) == f(BlockAt(s, b))
  {
    var r, x := Ecb(f, s), f(BlockAt(s, b));
    forall i | 0 <= i < BLOCK_LEN ensures BlockAt(r, b)[i] == x[i] {
      assert (BLOCK_LEN * b + i) / BLOCK_LEN == b && (BLOCK_LEN * b + i) % BLOCK_LEN == i;
      assert BlockAt(r, b)[i] == r[BLOCK_LEN * b + i];
    }
  }

  /** Two passes of tweaks around one of ECB are the block-by-block procedure. */
  lemma TwoPassIsOnePass(f: Block -> Block, t: Block, s: seq<byte>)
    requires |s| % BLOCK_LEN == 0
    ensures Tweaked(t, Ecb(f, Tweaked(t, s))) == Xts(f, t, s)
  {
    hide XorBlock, Alpha, TweakedUpTo, Ecb, XtsUpTo;
    var m, n := Tweaked(t, s), |s| / BLOCK_LEN;
    var e := Ecb(f, m);
    var l, r := Tweaked(t, e), Xts(f, t, s);
    forall b: nat | BLOCK_LEN * (b + 1) <= |s| ensures BlockAt(l, b) == BlockAt(r, b) {
      TweakedBlock(t, s, n, b);
      EcbBlock(f, m, b);
      TweakedBlock(t, e, n, b);
      XtsUpToBlock(f, t, s, n, b);
    }
    SameBlocks(l, r);
  }

  lemma TweakedNext(t: Block, s: seq<byte>, n: nat)
    requires BLOCK_LEN * (n + 1) <= |s|
    ensures TweakedUpTo(t, s, n)[BLOCK_LEN * n..BLOCK_LEN * n + BLOCK_LEN] == BlockAt(s, n)
    ensures Put(TweakedUpTo(t, s, n), BLOCK_LEN * n, XorBlock(BlockAt(s, n), Alpha(t, n))) == TweakedUpTo(t, s, n + 1)
  {
    hide XorBlock, Alpha;
    var l := Put(TweakedUpTo(t, s, n), BLOCK_LEN * n, XorBlock(BlockAt(s, n), Alpha(t, n)));
    var r := TweakedUpTo(t, s, n + 1);
    forall i | 0 <= i < |s| ensures l[i] == r[i] {
      if BLOCK_LEN * n <= i < BLOCK_LEN * n + BLOCK_LEN {
        Division.DivUnique(i, BLOCK_LEN, n, i - BLOCK_LEN * n);
      }
    }
  }

  /** EVP_DecryptUpdate in ECB mode without padding. */
  method EcbInPlace(f: Block -> Block, data: array<byte>, at: nat, len: nat)
    requires at + len <= data.Length && len % BLOCK_LEN == 0
    modifies data
    ensures data[..] == Put(old(data[..]), at, Ecb(f, old(data[at..at + len])))
  {
    hide Ecb, Put;
    CopyInto(data, at, Ecb(f, data[at..at + len]));
  }

  /** The class of xts_crypto.cpp, each OpenSSL context as the block permutation its key selects. */
  class XtsCrypto {
    const sectorSize: nat
    const crypto: Cipher
    const tweak: Cipher

    constructor (crypto: Cipher, tweak: Cipher, sectorSize: nat)
      ensures this.crypto == crypto && this.tweak == tweak && this.sectorSize == sectorSize
    {
      this.crypto, this.tweak, this.sectorSize := crypto, tweak, sectorSize;
    }

    /** Whatever the array held: half of it is cleared and the other half overwritten. */
    method CreateTweak(t: array<byte>, offset: u64)
      requires t.Length == BLOCK_LEN
      modifies t
      ensures t[..] == tweak.enc(GenIv(0, offset))
    {
      hide Put, Ecb;
      for i := 0 to 8
        invariant forall k :: 0 <= k < i ==> t[k] == 0
      {
        t[i] := 0;
      }
      var bytes := HostBytes(offset, 8);
      for i := 0 to 8
        invariant forall k :: 0 <= k < 8 ==> t[k] == 0
        invariant forall k :: 0 <= k < i ==> t[15 - k] == bytes[k]
      {
        t[15 - i] := bytes[i];
      }
      ghost var iv: Block := t[..];
      ZeroHostBytes();
      forall k | 0 <= k < BLOCK_LEN ensures iv[k] == GenIv(0, offset)[k] {
        if k < 8 {
        } else {
          assert t[15 - (15 - k)] == bytes[15 - k];
        }
      }
      assert iv == GenIv(0, offset);
      assert t[0..BLOCK_LEN] == iv;
      EcbInPlace(tweak.enc, t, 0, BLOCK_LEN);
      EcbOneBlock(tweak.enc, iv);
      PutWhole(iv, Ecb(tweak.enc, iv));
    }

    method ApplyTweak(t: array<byte>, data: array<byte>, at: nat, len: nat)
      requires t.Length == BLOCK_LEN && t != data && at + len <= data.Length && len % BLOCK_LEN == 0
      modifies data
      ensures data[..] == Put(old(data[..]), at, Tweaked(t[..], old(data[at..at + len])))
    {
      hide Put, TweakedUpTo, XorBlock, Double;
      var buf := new byte[BLOCK_LEN];
      CopyBlock(buf, t[..]);
      ghost var was, s, t0: Block := data[..], data[at..at + len], t[..];
      var i := 0;
      ghost var b := 0;
      TweakedNone(t0, s);
      PutSame(was, at, len);
      while i < len
        invariant i == BLOCK_LEN * b && i <= len
        invariant buf[..] == Alpha(t0, b) && t[..] == t0
        invariant data[..] == Put(was, at, TweakedUpTo(t0, s, b))
      {
        ghost var m := TweakedUpTo(t0, s, b);
        TweakedNext(t0, s, b);
        PutInside(was, at, m, i, XorBlock(BlockAt(s, b), Alpha(t0, b)));
        assert data[..][at + i..at + i + BLOCK_LEN] == data[at + i..at + i + BLOCK_LEN];
        assert buf[0..BLOCK_LEN] == buf[..];
        XorInPlace(data, at + i, buf, 0);
        NextTweak(buf);
        i := i + BLOCK_LEN;
        b := b + 1;
      }
    }

    /** One sector of the buffer: what one call of the block-by-block procedure makes of it. */
    method Decrypt(data: array<byte>, at: nat, offset: u64)
      requires at + sectorSize <= data.Length && sectorSize % BLOCK_LEN == 0
      modifies data
      ensures data[..] == Put(old(data[..]), at,
        Xts(crypto.dec, tweak.enc(GenIv(0, offset)), old(data[at..at + sectorSize])))
    {
      hide Put, Tweaked, Ecb, Xts, GenIv;
      ghost var was, s := data[..], data[at..at + sectorSize];
      var t := new byte[BLOCK_LEN];
      CreateTweak(t, offset);
      ghost var t0: Block := t[..];
      ApplyTweak(t, data, at, sectorSize);
      Piece(data, was, at, Tweaked(t0, s));
      EcbInPlace(crypto.dec, data, at, sectorSize);
      Piece(data, was, at, Ecb(crypto.dec, Tweaked(t0, s)));
      ApplyTweak(t, data, at, sectorSize);
      TwoPassIsOnePass(crypto.dec, t0, s);
    }
  }

  lemma Piece(a: array<byte>, was: seq<byte>, at: nat, b: seq<byte>)
    requires at + |b| <= |was| && a[..] == Put(was, at, b)
    ensures a.Length == |was| && a[at..at + |b|] == b
    ensures forall c: seq<byte> :: |c| == |b| ==> Put(a[..], at, c) == Put(was, at, c)
  {
    forall c: seq<byte> | |c| == |b| ensures Put(a[..], at, c) == Put(was, at, c) {
      PutTwice(was, at, b, c);
    }
  }

  lemma TweakedNone(t: Block, s: seq<byte>)
    ensures TweakedUpTo(t, s, 0) == s
  { }

  lemma EcbOneBlock(f: Block -> Block, b: Block)
    ensures Ecb(f, b) == f(b)
  {
    assert BlockAt(b, 0) == b;
    EcbBlock(f, b, 0);
    assert BlockAt(Ecb(f, b), 0) == Ecb(f, b);
  }

  lemma ZeroHostBytes()
    ensures forall k :: 0 <= k < 8 ==> HostBytes(0, 8)[k] == 0
  {
    ToByteAsNat(0);
  }

  // ---- the sector loop of main.c ----

  const TWO32: nat := 0x1_0000_0000

  /** fileSize: what an unsigned int holds of the file's length. */
  function FileSize(length: nat): nat {
    length % TWO32
  }

  function Sectors(fileSize: nat): nat {
    if fileSize % SECTOR_SIZE != 0 then fileSize / SECTOR_SIZE + 1 else fileSize / SECTOR_SIZE
  }

  /** The memory the loop works on: the bytes read, and what lies behind them up to a whole sector. */
  function Image(input: seq<byte>, slack: seq<byte>): (r: seq<byte>)
    requires FileSize(|input|) + |slack| == SECTOR_SIZE * Sectors(FileSize(|input|))
    ensures |r| == SECTOR_SIZE * Sectors(FileSize(|input|)) && |r| % BLOCK_LEN == 0 && |r| <= TWO32
  {
    WholeSectors(|input|);
    input[..FileSize(|input|)] + slack
  }

  lemma WholeSectors(length: nat)
    ensures FileSize(length) <= length && SECTOR_SIZE * Sectors(FileSize(length)) <= TWO32
    ensures SECTOR_SIZE * Sectors(FileSize(length)) % BLOCK_LEN == 0
    ensures FileSize(length) <= SECTOR_SIZE * Sectors(FileSize(length))
  {
    var n := Sectors(FileSize(length));
    assert n <= 0x40000;
    Division.DivUnique(SECTOR_SIZE * n, BLOCK_LEN, 1024 * n, 0);
  }

  /** Sector `n` of the buffer decrypts to that sector of the view. */
  lemma SectorIsView(k: Keys, image: seq<byte>, n: nat)
    requires |image| % BLOCK_LEN == 0 && SECTOR_SIZE * (n + 1) <= |image| < MAX64
    ensures Xts(k.crypt.dec, k.tweak.enc(GenIv(0, n)), image[SECTOR_SIZE * n..SECTOR_SIZE * n + SECTOR_SIZE])
         == Plain(k, image)[SECTOR_SIZE * n..SECTOR_SIZE * n + SECTOR_SIZE]
  {
    hide Plain, Xts, GenIv;
    var at := SECTOR_SIZE * n;
    Division.DivUnique(at, SECTOR_SIZE, n, 0);
    Division.DivUnique(at, BLOCK_LEN, 1024 * n, 0);
    DecryptedChunkIsView(k, image, at, SECTOR_SIZE, 0);
  }

  /**
   XTS of the first (length mod 2^32) bytes and the slack, block by block: sector number b div 1024 and
   alpha^(b mod 1024). The output is the next multiple of 0x4000 bytes long.
   */
  ghost predicate Dumped(crypt: Cipher, tweak: Cipher, input: seq<byte>, slack: seq<byte>, output: seq<byte>) {
    var n := |input| % 0x1_0000_0000;
    var image := input[..n] + slack;
    && |output| == |image| == 0x4000 * ((n + 0x3fff) / 0x4000)
    && forall b: nat :: 16 * (b + 1) <= |image| && b / 1024 < TWO64 ==>
      var t := Alpha(tweak.enc(GenIv(0, b / 1024)), b % 1024);
      BlockAt(output, b) == XorBlock(crypt.dec(XorBlock(BlockAt(image, b), t)), t)
  }

  lemma DumpedByKeys(crypt: Cipher, tweak: Cipher, input: seq<byte>, slack: seq<byte>)
    requires FileSize(|input|) + |slack| == SECTOR_SIZE * Sectors(FileSize(|input|))
    ensures Dumped(crypt, tweak, input, slack, Plain(Keys(crypt, tweak), Image(input, slack)))
  {
    hide XorBlock, Alpha, GenIv, BlockAt, Plain;
    var k, image := Keys(crypt, tweak), Image(input, slack);
    RoundedUp(FileSize(|input|));
    forall b: nat | 16 * (b + 1) <= |image| && b / 1024 < TWO64
      ensures BlockTweak(k, b) == Alpha(tweak.enc(GenIv(0, b / 1024)), b % 1024)
      ensures BlockAt(Plain(k, image), b) == PlainBlock(k, b, BlockAt(image, b))
    {
      PlainAt(k, image, b);
    }
  }

  lemma RoundedUp(n: nat)
    ensures SECTOR_SIZE * Sectors(n) == 0x4000 * ((n + 0x3fff) / 0x4000)
  { }

  /**
   The loop over a dump. `slack` is the memory behind the buffer, which the last sector runs into when the
   size is not a multiple of the sector size.
   */
  method DecryptDump(crypto: XtsCrypto, input: seq<byte>, slack: seq<byte>) returns (output: seq<byte>)
    requires crypto.sectorSize == SECTOR_SIZE
    requires FileSize(|input|) + |slack| == SECTOR_SIZE * Sectors(FileSize(|input|))
    ensures output == Plain(Keys(crypto.crypto, crypto.tweak), Image(input, slack))
    ensures Dumped(crypto.crypto, crypto.tweak, input, slack, output)
  {
    hide Plain, Xts, GenIv, Put, Sectors, FileSize, Advance, Dumped;
    DumpedByKeys(crypto.crypto, crypto.tweak, input, slack);
    WholeSectors(|input|);
    var fileSize := FileSize(|input|);
    ghost var k, image := Keys(crypto.crypto, crypto.tweak), Image(input, slack);
    var inBuf := new byte[fileSize + |slack|](i requires 0 <= i < fileSize + |slack| =>
      if i < fileSize then input[i] else slack[i - fileSize]);
    assert inBuf[..] == image && |image| == SECTOR_SIZE * Sectors(fileSize);
    var sectors := Sectors(fileSize);
    var decrypted := 0;
    output := [];
    hide Image;
    for i := 0 to sectors
      invariant i < sectors ==> decrypted == SECTOR_SIZE * i
      invariant output == Plain(k, image)[..SECTOR_SIZE * i]
      invariant inBuf[SECTOR_SIZE * i..] == image[SECTOR_SIZE * i..]
    {
      var ptr := decrypted;
      ghost var before := inBuf[..];
      RestOf(before, image, ptr, SECTOR_SIZE);
      SectorIsView(k, image, i);
      crypto.Decrypt(inBuf, ptr, i);
      DecryptedSector(inBuf, before, ptr, Plain(k, image)[ptr..ptr + SECTOR_SIZE]);
      NextSector(i, sectors);
      decrypted := Advance(decrypted);
      output := output + inBuf[ptr..ptr + SECTOR_SIZE];
      JoinSlices(Plain(k, image), 0, ptr, ptr + SECTOR_SIZE);
    }
  }

  lemma DecryptedSector(a: array<byte>, was: seq<byte>, at: nat, b: seq<byte>)
    requires at + |b| <= |was| && a[..] == Put(was, at, b)
    ensures a.Length == |was| && a[at..at + |b|] == b && a[at + |b|..] == was[at + |b|..]
  {
    PutThenRest(was, at, b);
    assert a[at..at + |b|] == a[..][at..at + |b|];
    assert a[at + |b|..] == a[..][at + |b|..];
  }

  /** The 32-bit offset wraps around only behind the last sector. */
  lemma NextSector(i: nat, sectors: nat)
    requires i < sectors && SECTOR_SIZE * sectors <= TWO32
    ensures i + 1 < sectors ==> Advance(SECTOR_SIZE * i) == SECTOR_SIZE * (i + 1)
  { }

  function Advance(decrypted: nat): nat {
    (decrypted + SECTOR_SIZE) % TWO32
  }

  lemma RestOf(s: seq<byte>, t: seq<byte>, at: nat, n: nat)
    requires |s| == |t| && at + n <= |s| && s[at..] == t[at..]
    ensures s[at..at + n] == t[at..at + n] && s[at + n..] == t[at + n..]
  {
    assert s[at..][..n] == t[at..][..n];
    assert s[at..][n..] == t[at..][n..];
  }

  lemma PutThenRest(s: seq<byte>, at: nat, b: seq<byte>)
    requires at + |b| <= |s|
    ensures Put(s, at, b)[at..at + |b|] == b && Put(s, at, b)[at + |b|..] == s[at + |b|..]
  { }

  // ---- agreement with the driver and with ccrypto.c ----

  /** The view of a prefix of whole blocks does not depend on what follows. */
  lemma PlainPrefix(k: Keys, raw: seq<byte>, other: seq<byte>, n: nat)
    requires |raw| % BLOCK_LEN == 0 && |other| % BLOCK_LEN == 0 && n % BLOCK_LEN == 0
    requires n <= |raw| && n <= |other| && raw[..n] == other[..n]
    ensures Plain(k, raw)[..n] == Plain(k, other)[..n]
  {
    hide Plain, PlainBlock;
    var l, r := Plain(k, raw)[..n], Plain(k, other)[..n];
    forall b: nat | BLOCK_LEN * (b + 1) <= n ensures BlockAt(l, b) == BlockAt(r, b) {
      PlainAt(k, raw, b);
      PlainAt(k, other, b);
      BlockOfPrefix(raw, n, b);
      BlockOfPrefix(other, n, b);
      BlockOfPrefix(Plain(k, raw), n, b);
      BlockOfPrefix(Plain(k, other), n, b);
    }
    SameBlocks(l, r);
  }

  lemma BlockOfPrefix(s: seq<byte>, n: nat, b: nat)
    requires BLOCK_LEN * (b + 1) <= n <= |s|
    ensures BlockAt(s[..n], b) == BlockAt(s, b)
  { }

  /**
   Random access agrees with the whole-dump decryption: what the driver reads from a partition is that slice
   of the output for its dump, as far as the 32-bit file size lets the output reach, whatever the slack.
   */
  lemma DriverAgreesWithBatch(k: Keys, raw: seq<byte>, slack: seq<byte>, offset: nat, size: nat)
    requires |raw| % BLOCK_LEN == 0 && |raw| < OFFSET_LIMIT
    requires FileSize(|raw|) + |slack| == SECTOR_SIZE * Sectors(FileSize(|raw|))
    requires 0 < size && offset + size <= FileSize(|raw|) && Chunked(offset, size)
    ensures offset + size <= |Image(raw, slack)|
    ensures Read(true, k, raw, offset, size) == Plain(k, Image(raw, slack))[offset..offset + size]
  {
    hide Plain, Read, Sectors, FileSize, Chunked;
    WholeSectors(|raw|);
    ChunkedEnds(offset, size);
    var n := offset + size;
    ReadIsView(true, k, raw, offset, size);
    assert Image(raw, slack)[..n] == raw[..n];
    PlainPrefix(k, raw, Image(raw, slack), n);
    var l, r := Plain(k, raw), Plain(k, Image(raw, slack));
    SliceOfPrefix(l, n, offset);
    SliceOfPrefix(r, n, offset);
  }

  lemma ChunkedEnds(offset: nat, size: nat)
    requires size > 0 && Chunked(offset, size)
    ensures (offset + size) % BLOCK_LEN == 0
  { }

  lemma SliceOfPrefix(s: seq<byte>, n: nat, i: nat)
    requires i <= n <= |s|
    ensures s[i..n] == s[..n][i..n]
  { }

  /** The output holds the whole plaintext exactly when the length fits the 32-bit file size. */
  lemma BatchIsWholeIff(k: Keys, raw: seq<byte>, slack: seq<byte>)
    requires |raw| % BLOCK_LEN == 0
    requires FileSize(|raw|) + |slack| == SECTOR_SIZE * Sectors(FileSize(|raw|))
    ensures |raw| <= |Image(raw, slack)| && Plain(k, Image(raw, slack))[..|raw|] == Plain(k, raw)
       <==> |raw| < 0x1_0000_0000
  {
    hide Plain;
    WholeSectors(|raw|);
    if |raw| < TWO32 {
      assert Image(raw, slack)[..|raw|] == raw[..|raw|];
      PlainPrefix(k, raw, Image(raw, slack), |raw|);
      assert Plain(k, raw)[..|raw|] == Plain(k, raw);
    }
  }

  /**
   The output is the plaintext and no more exactly when the length fits the 32-bit file size and is whole
   sectors; and the loop stays inside its buffer exactly when the file size is whole sectors.
   */
  lemma BatchIsExactIff(k: Keys, raw: seq<byte>, slack: seq<byte>)
    requires |raw| % BLOCK_LEN == 0
    requires FileSize(|raw|) + |slack| == SECTOR_SIZE * Sectors(FileSize(|raw|))
    ensures Plain(k, Image(raw, slack)) == Plain(k, raw) <==> |raw| < 0x1_0000_0000 && |raw| % 0x4000 == 0
    ensures slack == [] <==> |raw| % 0x1_0000_0000 % 0x4000 == 0
  {
    hide Plain;
    WholeSectors(|raw|);
    if |raw| < TWO32 && |raw| % SECTOR_SIZE == 0 {
      assert Image(raw, slack) == raw;
    }
  }

  /**
   For the dumps of the partition table: PRODINFO runs 0x400 bytes past the buffer, USER is cut to
   0x80000000 bytes, and the other three come out exactly.
   */
  lemma TableDumps(k: Keys, info: Driver.PartitionInfo, i: nat, raw: seq<byte>, slack: seq<byte>)
    requires Driver.InTable(info, i) && |raw| == info.partitionSize && |raw| % BLOCK_LEN == 0
    requires FileSize(|raw|) + |slack| == SECTOR_SIZE * Sectors(FileSize(|raw|))
    ensures Plain(k, Image(raw, slack)) == Plain(k, raw) <==> info.name in {"PRODINFOF", "SAFE", "SYSTEM"}
    ensures |slack| == if info.name == "PRODINFO" then 0x400 else 0
    ensures info.name == "USER" ==> |Image(raw, slack)| == 0x8000_0000 < |raw|
  {
    hide Plain;
    BatchIsExactIff(k, raw, slack);
    TableNames();
  }

  lemma TableNames()
    ensures "PRODINFO" !in {"PRODINFOF", "SAFE", "SYSTEM", "USER"}
    ensures "USER" !in {"PRODINFOF", "SAFE", "SYSTEM", "PRODINFO"}
  {
    assert "SAFE"[0] == 'S' && "USER"[0] == 'U';
  }

  /** Under every tweak key the two programs start a sector from the same tweak exactly below the last number. */
  lemma SectorTweaksAgreeIff(tw: Cipher, n: u64)
    requires Inverse(tw)
    ensures tw.enc(GenIv(0, n)) == SectorTweak(tw, 0, n) <==> n != MAX64
  {
    hide GenIv;
    if n == MAX64 && tw.enc(GenIv(0, n)) == SectorTweak(tw, 0, n) {
      assert tw.dec(tw.enc(GenIv(0, n))) == tw.dec(tw.enc(GenIv(1, n)));
      GenIvInjective(0, n, 1, n);
    }
  }

  /** In particular under every AES key. */
  lemma AesTweaksAgreeIff(tweakKey: seq<byte>, n: u64)
    requires |tweakKey| >= KEY_LEN
    ensures Aes128(tweakKey).enc(GenIv(0, n)) == SectorTweak(Aes128(tweakKey), 0, n) <==> n != MAX64
  {
    hide Aes128, Inverse, SectorTweak;
    Aes128Inverse(tweakKey);
    SectorTweaksAgreeIff(Aes128(tweakKey), n);
  }

  /** With the same keys and sector, for all buffers, the two programs decrypt alike. */
  ghost predicate SectorsAgree(n: u64, sectorSize: u32) {
    forall k: Keys, s: seq<byte> :: |s| % BLOCK_LEN == 0 ==>
      Xts(k.crypt.dec, k.tweak.enc(GenIv(0, n)), s)
      == Process(false, k.crypt, k.tweak, 0, n, sectorSize, 0, s)
  }

  /** They do on every sector number but the last: there ccrypto.c counts the high word up and create_tweak does not. */
  lemma SectorsAgreeIff(n: u64, sectorSize: u32)
    ensures SectorsAgree(n, sectorSize) <==> n != MAX64
  {
    hide Xts;
    if n != MAX64 {
      forall k: Keys, s: seq<byte> | |s| % BLOCK_LEN == 0
        ensures Xts(k.crypt.dec, k.tweak.enc(GenIv(0, n)), s)
             == Process(false, k.crypt, k.tweak, 0, n, sectorSize, 0, s)
      { }
    } else {
      LastSectorDiffers(sectorSize);
    }
  }

  lemma LastSectorDiffers(sectorSize: u32)
    ensures !SectorsAgree(MAX64, sectorSize)
  {
    hide Process, Xts, Alpha, GenIv, ExchangeCipher, XtsBlock;
    var t0, t1 := GenIv(0, MAX64), GenIv(1, MAX64);
    var w := OtherBlock(XorBlock(t0, t1));
    var k := Keys(ExchangeCipher(w), Cipher((b: Block) => b, (b: Block) => b));
    if t0 == t1 {
      GenIvInjective(0, MAX64, 1, MAX64);
    }
    OneBlockXts(k.crypt.dec, t0, t0);
    OneBlockXts(k.crypt.dec, t1, t0);
    ExchangeTellsTweaks(w, t0, t1);
    ProcessAtLast(k, sectorSize, t0);
    assert Xts(k.crypt.dec, t0, t0) != Process(false, k.crypt, k.tweak, 0, MAX64, sectorSize, 0, t0);
  }

  lemma ProcessAtLast(k: Keys, sectorSize: u32, s: seq<byte>)
    ensures Process(false, k.crypt, k.tweak, 0, MAX64, sectorSize, 0, s)
         == Xts(k.crypt.dec, k.tweak.enc(GenIv(1, MAX64)), s)
  {
    hide Xts, GenIv;
  }

  lemma OneBlockXts(f: Block -> Block, t: Block, b: Block)
    ensures Xts(f, t, b) == XtsBlock(f, t, b)
  {
    hide XtsBlock;
    assert BlockAt(b, 0) == b;
    XtsUpToBlock(f, t, b, 1, 0);
    assert BlockAt(Xts(f, t, b), 0) == Xts(f, t, b);
  }

  lemma ExchangeTellsTweaks(w: Block, t0: Block, t1: Block)
    requires w != ZERO_BLOCK && w != XorBlock(t0, t1) && t0 != t1
    ensures XtsBlock(ExchangeCipher(w).dec, t0, t0) != XtsBlock(ExchangeCipher(w).dec, t1, t0)
  {
    hide XorBlock;
    XorBlockZero(t0, t0);
    XorBlockZero(t0, t1);
    XorBlockCancels(t0, t1);
    XorBlockCancels(w, t0);
  }
}
