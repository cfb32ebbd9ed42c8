/** Byte sequences, 16-byte blocks and the xor operations every other module is stated with. */
module Bytes {
  type byte = bv8

  const BLOCK_LEN: nat := 16

  type Block = s: seq<byte> | |s| == BLOCK_LEN witness seq(BLOCK_LEN, _ => 0)

  const ZERO_BLOCK: Block := [0, 0, 0, 0, 0, 0, 0, 0, 0, 0, 0, 0, 0, 0, 0, 0]

  function Xor(x: byte, y: byte): byte {
    x ^ y
  }

  function XorBlock(a: Block, b: Block): Block {
    seq(BLOCK_LEN, i requires 0 <= i < BLOCK_LEN => Xor(a[i], b[i]))
  }

  lemma XorAssociates(a: byte, b: byte, c: byte)
    ensures Xor(Xor(a, b), c) == Xor(a, Xor(b, c))
  { }

  lemma XorCommutes(a: byte, b: byte)
    ensures Xor(a, b) == Xor(b, a)
  { }

  lemma XorBlockAt(a: Block, b: Block, i: nat)
    requires i < BLOCK_LEN
    ensures XorBlock(a, b)[i] == Xor(a[i], b[i])
  {
    hide Xor;
  }

  lemma XorBlockCancels(a: Block, b: Block)
    ensures XorBlock(XorBlock(a, b), b) == a
  {
    var r := XorBlock(XorBlock(a, b), b);
    assert forall i :: 0 <= i < BLOCK_LEN ==> r[i] == a[i];
  }

  lemma XorBlockZero(a: Block, b: Block)
    ensures XorBlock(a, ZERO_BLOCK) == a
    ensures XorBlock(a, b) == ZERO_BLOCK <==> a == b
  {
    assert forall i :: 0 <= i < BLOCK_LEN ==> XorBlock(a, ZERO_BLOCK)[i] == a[i];
    if XorBlock(a, b) == ZERO_BLOCK {
      forall i | 0 <= i < BLOCK_LEN ensures a[i] == b[i] {
        assert Xor(a[i], b[i]) == XorBlock(a, b)[i] == 0;
      }
    }
  }

  /** `s` with the bytes from `at` on replaced by `b`. */
  function Put(s: seq<byte>, at: nat, b: seq<byte>): (r: seq<byte>)
    requires at + |b| <= |s|
    ensures |r| == |s|
    ensures forall k :: 0 <= k < |s| ==> r[k] == if at <= k < at + |b| then b[k - at] else s[k]
  {
    s[..at] + b + s[at + |b|..]
  }

  lemma PutTwice(s: seq<byte>, at: nat, b: seq<byte>, c: seq<byte>)
    requires |b| == |c| && at + |b| <= |s|
    ensures Put(Put(s, at, b), at, c) == Put(s, at, c)
    ensures Put(s, at, b)[at..at + |b|] == b
  { }

  /** Writing inside a piece already put in place. */
  lemma PutInside(s: seq<byte>, at: nat, x: seq<byte>, o: nat, b: seq<byte>)
    requires at + |x| <= |s| && o + |b| <= |x|
    ensures Put(Put(s, at, x), at + o, b) == Put(s, at, Put(x, o, b))
    ensures Put(s, at, x)[at + o..at + o + |b|] == x[o..o + |b|]
  { }

  lemma PutSame(s: seq<byte>, at: nat, n: nat)
    requires at + n <= |s|
    ensures Put(s, at, s[at..at + n]) == s
  { }

  /** A write inside a piece of `s` is a write of the whole piece. */
  lemma PutInPiece(s: seq<byte>, at: nat, n: nat, o: nat, b: seq<byte>)
    requires at + n <= |s| && o + |b| <= n
    ensures Put(s, at + o, b) == Put(s, at, Put(s[at..at + n], o, b))
    ensures Put(s, at + o, b)[at..at + n] == Put(s[at..at + n], o, b)
  { }

  lemma DisjointPut(s: seq<byte>, at: nat, b: seq<byte>, o: nat, n: nat)
    requires at + |b| <= |s| && o + n <= |s| && (at + |b| <= o || o + n <= at)
    ensures Put(s, at, b)[o..o + n] == s[o..o + n]
  { }

  lemma PutFront(s: seq<byte>, b: seq<byte>)
    requires |b| <= |s|
    ensures Put(s, 0, b)[..|b|] == b
  { }

  lemma PutWhole(s: seq<byte>, b: seq<byte>)
    requires |s| == |b|
    ensures Put(s, 0, b) == b
  { }

  lemma SliceOfSlice(p: seq<byte>, at: nat, n: nat, i: nat, j: nat)
    requires at + n <= |p| && i <= j <= n
    ensures p[at..at + n][i..j] == p[at + i..at + j]
  {
    var q := p[at..at + n];
    forall x | 0 <= x < j - i ensures q[i..j][x] == p[at + i..at + j][x] {
      assert q[i..j][x] == q[i + x];
      assert p[at + i..at + j][x] == p[(at + i) + x];
    }
  }

  lemma Regroup(a: seq<byte>, b: seq<byte>, c: seq<byte>)
    ensures a + (b + c) == a + b + c
  { }

  lemma JoinSlices(p: seq<byte>, a: nat, b: nat, c: nat)
    requires a <= b <= c <= |p|
    ensures p[a..b] + p[b..c] == p[a..c]
  { }

  /** A block put into an array is what a read at `at` returns and what a second put there replaces. */
  lemma PutInArray(a: array<byte>, was: seq<byte>, at: nat, b: Block)
    requires at + BLOCK_LEN <= |was| && a[..] == Put(was, at, b)
    ensures a.Length == |was| && a[at..at + BLOCK_LEN] == b
    ensures a[..at] == was[..at] && a[at + BLOCK_LEN..] == was[at + BLOCK_LEN..]
    ensures a[..at + BLOCK_LEN] == was[..at] + b
    ensures forall c: Block :: Put(a[..], at, c) == Put(was, at, c)
  {
    forall c: Block ensures Put(a[..], at, c) == Put(was, at, c) {
      PutTwice(was, at, b, c);
    }
  }

  /** The `b`-th 16-byte block of `s`. */
  function BlockAt(s: seq<byte>, b: nat): Block
    requires BLOCK_LEN * (b + 1) <= |s|
  {
    s[BLOCK_LEN * b..BLOCK_LEN * b + BLOCK_LEN]
  }

  lemma BlockByte(s: seq<byte>, b: nat, m: nat)
    requires BLOCK_LEN * (b + 1) <= |s| && m < BLOCK_LEN
    ensures BlockAt(s, b)[m] == s[BLOCK_LEN * b + m]
  { }

  lemma BlockOfPut(s: seq<byte>, at: nat, x: Block, b: nat)
    requires BLOCK_LEN * (at + 1) <= |s| && BLOCK_LEN * (b + 1) <= |s|
    ensures BlockAt(Put(s, BLOCK_LEN * at, x), b) == if b == at then x else BlockAt(s, b)
  { }

  /** The unsigned number a byte string denotes, most significant byte first. */
  function BigEndian(s: seq<byte>): nat {
    if s == [] then 0 else 0x100 * BigEndian(s[..|s| - 1]) + s[|s| - 1] as nat
  }

  function Pow256(n: nat): (r: nat)
    ensures r > 0
  {
    if n == 0 then 1 else 0x100 * Pow256(n - 1)
  }

  lemma Pow256Values()
    ensures Pow256(8) == 0x1_0000_0000_0000_0000
    ensures Pow256(BLOCK_LEN) == 0x1_0000_0000_0000_0000_0000_0000_0000_0000
  {
    assert Pow256(2) == 0x1_0000 && Pow256(4) == 0x1_0000_0000;
    assert Pow256(6) == 0x1_0000_0000_0000 && Pow256(8) == 0x1_0000_0000_0000_0000;
    assert Pow256(10) == 0x1_0000_0000_0000_0000_0000;
    assert Pow256(12) == 0x1_0000_0000_0000_0000_0000_0000;
    assert Pow256(14) == 0x1_0000_0000_0000_0000_0000_0000_0000;
  }

  lemma {:induction false} BigEndianBound(s: seq<byte>)
    ensures BigEndian(s) < Pow256(|s|)
  {
    if s != [] {
      BigEndianBound(s[..|s| - 1]);
    }
  }

  lemma ByteAsNat(x: byte, y: byte)
    ensures 0 <= x as nat < 0x100
    ensures x as nat == y as nat ==> x == y
  { }

  /** The number without its last byte, and that byte. */
  lemma BigEndianLast(s: seq<byte>) returns (high: nat, low: nat)
    requires s != []
    ensures high == BigEndian(s[..|s| - 1]) && low == s[|s| - 1] as nat && low < 0x100
    ensures BigEndian(s) == 0x100 * high + low
  {
    high, low := BigEndian(s[..|s| - 1]), s[|s| - 1] as nat;
    ByteAsNat(s[|s| - 1], 0);
  }

  lemma SameDigits(a: nat, x: nat, b: nat, y: nat)
    requires 0x100 * a + x == 0x100 * b + y && x < 0x100 && y < 0x100
    ensures a == b && x == y
  { }

  /** A byte string of known length is determined by the number it denotes. */
  lemma {:induction false} BigEndianInjective(s: seq<byte>, t: seq<byte>)
    requires |s| == |t| && BigEndian(s) == BigEndian(t)
    ensures s == t
  {
    if s != [] {
      var n := |s| - 1;
      var a, x := BigEndianLast(s);
      var b, y := BigEndianLast(t);
      hide BigEndian;
      SameDigits(a, x, b, y);
      BigEndianInjective(s[..n], t[..n]);
      ByteAsNat(s[n], t[n]);
      assert s == s[..n] + [s[n]] && t == t[..n] + [t[n]];
    }
  }

  lemma SameSixteen(s: Block, t: Block)
    requires s[0] == t[0] && s[1] == t[1] && s[2] == t[2] && s[3] == t[3]
    requires s[4] == t[4] && s[5] == t[5] && s[6] == t[6] && s[7] == t[7]
    requires s[8] == t[8] && s[9] == t[9] && s[10] == t[10] && s[11] == t[11]
    requires s[12] == t[12] && s[13] == t[13] && s[14] == t[14] && s[15] == t[15]
    ensures s == t
  {
    forall i | 0 <= i < BLOCK_LEN ensures s[i] == t[i] {
      assert i == 0 || i == 1 || i == 2 || i == 3 || i == 4 || i == 5 || i == 6 || i == 7
          || i == 8 || i == 9 || i == 10 || i == 11 || i == 12 || i == 13 || i == 14 || i == 15;
    }
  }

  /** Two strings of whole blocks that agree block by block are equal. */
  lemma SameBlocks(s: seq<byte>, t: seq<byte>)
    requires |s| == |t| && |s| % BLOCK_LEN == 0
    requires forall b: nat :: BLOCK_LEN * (b + 1) <= |s| ==> BlockAt(s, b) == BlockAt(t, b)
    ensures s == t
  {
    forall k | 0 <= k < |s| ensures s[k] == t[k] {
      var b := k / BLOCK_LEN;
      assert BlockAt(s, b) == BlockAt(t, b);
      assert s[k] == BlockAt(s, b)[k % BLOCK_LEN] && t[k] == BlockAt(t, b)[k % BLOCK_LEN];
    }
  }

  /** memcpy. */
  method CopyInto(to: array<byte>, at: nat, from: seq<byte>)
    requires at + |from| <= to.Length
    modifies to
    ensures to[..] == Put(old(to[..]), at, from)
  {
    ghost var was := to[..];
    for i := 0 to |from|
      invariant forall k :: 0 <= k < |was| ==> to[k] == if at <= k < at + i then from[k - at] else was[k]
    {
      to[at + i] := from[i];
    }
    assert to[..] == Put(was, at, from);
  }
}
