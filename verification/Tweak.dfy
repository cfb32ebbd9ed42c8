/**
 The tweak of XTS-N: the big-endian sector number of geniv, and the multiplication by alpha that steps
 the encrypted tweak from block to block (ccrypto.c; the same step in xts_crypto.cpp).
 */
module Tweak {
  import opened Bytes
  import Division

  type u64 = x: int | 0 <= x < 0x1_0000_0000_0000_0000

  const MAX64: u64 := 0xffff_ffff_ffff_ffff
  const TWO64: nat := 0x1_0000_0000_0000_0000

  // ---- geniv ----

  /** The bytes of an integer in memory on the little-endian host. */
  function HostBytes(x: nat, n: nat): (r: seq<byte>)
    ensures |r| == n
  {
    if n == 0 then [] else [ToByte(x % 0x100)] + HostBytes(x / 0x100, n - 1)
  }

  function ToByte(x: nat): byte
    requires x < 0x100
  {
    x as byte
  }

  lemma ToByteAsNat(x: nat)
    requires x < 0x100
    ensures ToByte(x) as int == x
  {
    assert x == x % 0x100;
  }

  function Reversed(s: seq<byte>): (r: seq<byte>)
    ensures |r| == |s|
    ensures forall i :: 0 <= i < |s| ==> r[i] == s[|s| - 1 - i]
  {
    if s == [] then [] else Reversed(s[1..]) + [s[0]]
  }

  function GenIv(hi: u64, lo: u64): Block {
    Reversed(HostBytes(hi, 8)) + Reversed(HostBytes(lo, 8))
  }

  lemma {:induction false} ReversedBytesDenote(x: nat, n: nat)
    requires x < Pow256(n)
    ensures BigEndian(Reversed(HostBytes(x, n))) == x
  {
    if n > 0 {
      var s := HostBytes(x, n);
      assert s[1..] == HostBytes(x / 0x100, n - 1);
      ReversedBytesDenote(x / 0x100, n - 1);
      ToByteAsNat(x % 0x100);
      hide ToByte;
      var r := Reversed(s);
      assert r[..|r| - 1] == Reversed(s[1..]);
    }
  }

  /** `x` followed by `n` zero bytes. */
  function Scale(x: nat, n: nat): nat {
    if n == 0 then x else 0x100 * Scale(x, n - 1)
  }

  lemma {:induction false} BigEndianConcat(a: seq<byte>, b: seq<byte>)
    ensures BigEndian(a + b) == Scale(BigEndian(a), |b|) + BigEndian(b)
  {
    if b == [] {
      assert a + b == a;
    } else {
      var n := |b| - 1;
      assert (a + b)[..|a + b| - 1] == a + b[..n];
      BigEndianConcat(a, b[..n]);
    }
  }

  lemma ScaleBy8(x: nat)
    ensures Scale(x, 8) == x * 0x1_0000_0000_0000_0000
  {
    assert Scale(x, 1) == 0x100 * x;
    assert Scale(x, 2) == 0x1_0000 * x;
    assert Scale(x, 3) == 0x100_0000 * x;
    assert Scale(x, 4) == 0x1_0000_0000 * x;
    assert Scale(x, 5) == 0x100_0000_0000 * x;
    assert Scale(x, 6) == 0x1_0000_0000_0000 * x;
    assert Scale(x, 7) == 0x100_0000_0000_0000 * x;
  }

  /** geniv writes the 128-bit number `hi * 2^64 + lo`, most significant byte first. */
  lemma GenIvDenotes(hi: u64, lo: u64)
    ensures BigEndian(GenIv(hi, lo)) == hi * 0x1_0000_0000_0000_0000 + lo
  {
    Pow256Values();
    ScaleBy8(hi);
    hide Pow256, BigEndian, Scale;
    ReversedBytesDenote(hi, 8);
    ReversedBytesDenote(lo, 8);
    BigEndianConcat(Reversed(HostBytes(hi, 8)), Reversed(HostBytes(lo, 8)));
  }

  lemma GenIvInjective(hi: u64, lo: u64, hi': u64, lo': u64)
    requires GenIv(hi, lo) == GenIv(hi', lo')
    ensures hi == hi' && lo == lo'
  {
    GenIvDenotes(hi, lo);
    GenIvDenotes(hi', lo');
  }

  method GenIvInto(out: array<byte>, hi: u64, lo: u64)
    requires out.Length == BLOCK_LEN
    modifies out
    ensures out[..] == GenIv(hi, lo)
  {
    var foo := HostBytes(lo, 8);
    for i := 0 to 8
      invariant forall k :: 0 <= k < i ==> out[15 - k] == foo[k]
    {
      out[15 - i] := foo[i];
    }
    ghost var low := foo;
    foo := HostBytes(hi, 8);
    for i := 0 to 8
      invariant forall k :: 0 <= k < 8 ==> out[15 - k] == low[k]
      invariant forall k :: 0 <= k < i ==> out[7 - k] == foo[k]
    {
      out[7 - i] := foo[i];
    }
    forall k | 0 <= k < BLOCK_LEN ensures out[k] == GenIv(hi, lo)[k] {
      if k < 8 {
        assert out[7 - (7 - k)] == foo[7 - k];
      } else {
        assert out[15 - (15 - k)] == low[15 - k];
      }
    }
  }

  // ---- shift128 and the step by alpha ----

  /** A byte moved up one place, with the bit carried in from the byte before it. */
  function ShiftByte(b: byte, before: byte): byte {
    (b << 1) | (before >> 7)
  }

  /** shift128: byte 0 is the least significant and takes in nothing. */
  function Shift(t: Block): Block {
    seq(BLOCK_LEN, i requires 0 <= i < BLOCK_LEN => ShiftByte(t[i], if i == 0 then 0 else t[i - 1]))
  }

  function HighBit(b: byte): bool {
    b & 0x80 != 0
  }

  function Fold(b: byte): byte {
    b ^ 0x87
  }

  function FoldFirst(t: Block, carry: bool): Block {
    if carry then t[0 := Fold(t[0])] else t
  }

  /** One step of the tweak: the shift, and 0x87 into byte 0 when a bit left byte 15. */
  function Double(t: Block): Block {
    FoldFirst(Shift(t), HighBit(t[15]))
  }

  method Shift128(foo: array<byte>)
    requires foo.Length == BLOCK_LEN
    modifies foo
    ensures foo[..] == Shift(old(foo[..]))
  {
    hide ShiftByte, Shift;
    ghost var was: Block := foo[..];
    var i := 15;
    while i >= 0
      invariant -1 <= i <= 15
      invariant forall k :: 0 <= k < BLOCK_LEN ==> foo[k] == if k <= i then was[k] else Shift(was)[k]
    {
      ShiftAt(was, i);
      assert foo[i] == was[i];
      if i != 0 {
        assert foo[i - 1] == was[i - 1];
        foo[i] := ShiftByte(foo[i], foo[i - 1]);
      } else {
        ShiftFirst(was[0]);
        foo[i] := ShiftUp(foo[i]);
      }
      i := i - 1;
    }
    assert foo[..] == Shift(was);
  }

  /** Byte 0 takes in nothing. */
  function ShiftUp(b: byte): byte {
    b << 1
  }

  lemma ShiftFirst(b: byte)
    ensures ShiftUp(b) == ShiftByte(b, 0)
  { }

  lemma ShiftAt(t: Block, k: nat)
    requires k < BLOCK_LEN
    ensures Shift(t)[k] == ShiftByte(t[k], if k == 0 then 0 else t[k - 1])
  {
    hide ShiftByte;
  }

  /** The lines of aes_xtsn_process that set the tweak for the next block. */
  method StepTweak(tweak: array<byte>)
    requires tweak.Length == BLOCK_LEN
    modifies tweak
    ensures tweak[..] == Double(old(tweak[..]))
  {
    ghost var was: Block := tweak[..];
    hide Shift, Fold, HighBit;
    var flag := HighBit(tweak[15]);
    Shift128(tweak);
    if flag {
      tweak[0] := Fold(tweak[0]);
      assert tweak[..] == Shift(was)[0 := Fold(Shift(was)[0])];
    }
  }

  // ---- what the step computes: polynomials over GF(2) ----

  function Bit(b: byte, k: nat): bool
    requires k < 8
  {
    b & (if k == 0 then 0x01 else if k == 1 then 0x02 else if k == 2 then 0x04 else if k == 3 then 0x08
         else if k == 4 then 0x10 else if k == 5 then 0x20 else if k == 6 then 0x40 else 0x80) != 0
  }

  /** Coefficient of x^n in the polynomial a block stands for, IEEE Std 1619-2007 section 5.2. */
  function Coefficient(t: Block, n: nat): bool
    requires n < 128
  {
    Bit(t[n / 8], n % 8)
  }

  lemma ShiftBit(b: byte, before: byte, k: nat)
    requires k < 8
    ensures Bit(ShiftByte(b, before), k) == if k == 0 then Bit(before, 7) else Bit(b, k - 1)
    ensures Bit(Fold(b), k) == (Bit(b, k) != (k == 0 || k == 1 || k == 2 || k == 7))
    ensures !Bit(0, k) && Bit(b, 7) == HighBit(b)
  { }

  /**
   The step is multiplication by x modulo x^128 + x^7 + x^2 + x + 1: every coefficient moves up by one,
   and a coefficient leaving the top is folded back onto 1, x, x^2 and x^7.
   */
  lemma DoubleMultipliesByX(t: Block, n: nat)
    requires n < 128
    ensures Coefficient(Double(t), n)
         == ((n > 0 && Coefficient(t, n - 1)) != (Coefficient(t, 127) && n in {0, 1, 2, 7}))
  {
    hide Bit, ShiftByte, Fold, HighBit;
    var i, k := n / 8, n % 8;
    var before := if i == 0 then 0 else t[i - 1];
    ShiftBit(t[i], before, k);
    ShiftBit(ShiftByte(t[0], 0), 0, k);
    ShiftBit(before, 0, 7);
    ShiftBit(t[15], 0, 7);
    if n > 0 {
      assert (n - 1) / 8 == (if k == 0 then i - 1 else i) && (n - 1) % 8 == (if k == 0 then 7 else k - 1);
    }
  }

  /** The same block as a number, byte 0 least significant. */
  function LittleEndian(s: seq<byte>): nat {
    if s == [] then 0 else s[0] as nat + 0x100 * LittleEndian(s[1..])
  }

  /** shift128 on any length, with the top bit of `before` shifted in. */
  function ShiftIn(s: seq<byte>, before: byte): (r: seq<byte>)
    ensures |r| == |s|
    ensures forall i :: 0 <= i < |s| ==> r[i] == ShiftByte(s[i], if i == 0 then before else s[i - 1])
  {
    if s == [] then [] else [ShiftByte(s[0], before)] + ShiftIn(s[1..], s[0])
  }

  function Carry(b: byte): nat {
    if HighBit(b) then 1 else 0
  }

  lemma ShiftByteDoubles(b: byte, before: byte)
    ensures ShiftByte(b, before) as nat + 0x100 * Carry(b) == 2 * (b as nat) + Carry(before)
  { }

  lemma {:induction false} ShiftInDoubles(s: seq<byte>, before: byte)
    requires s != []
    ensures LittleEndian(ShiftIn(s, before)) + (if HighBit(s[|s| - 1]) then Pow256(|s|) else 0)
         == 2 * LittleEndian(s) + Carry(before)
  {
    hide ShiftByte, HighBit;
    ShiftByteDoubles(s[0], before);
    var r := ShiftIn(s, before);
    assert r[1..] == ShiftIn(s[1..], s[0]);
    if |s| == 1 {
      assert s[1..] == [] && Pow256(1) == 0x100 * Pow256(0);
    } else {
      ShiftInDoubles(s[1..], s[0]);
    }
  }

  lemma {:induction false} LittleEndianBound(s: seq<byte>)
    ensures LittleEndian(s) < Pow256(|s|)
  {
    if s != [] {
      LittleEndianBound(s[1..]);
    }
  }

  lemma ZeroCarry()
    ensures Carry(0) == 0
  { }

  /** shift128 alone doubles the number modulo 2^128. */
  lemma ShiftDoubles(t: Block)
    ensures LittleEndian(Shift(t)) == (2 * LittleEndian(t)) % 0x1_0000_0000_0000_0000_0000_0000_0000_0000
  {
    hide Pow256, LittleEndian, ShiftByte, HighBit;
    ZeroCarry();
    assert Shift(t) == ShiftIn(t, 0);
    ShiftInDoubles(t, 0);
    LittleEndianBound(Shift(t));
    Pow256Values();
    Division.DivUnique(2 * LittleEndian(t), Pow256(BLOCK_LEN), if HighBit(t[15]) then 1 else 0, LittleEndian(Shift(t)));
  }

  // ---- linearity and injectivity, and repeated steps ----

  lemma ShiftByteLinear(a: byte, b: byte, a0: byte, b0: byte)
    ensures ShiftByte(Xor(a, b), Xor(a0, b0)) == Xor(ShiftByte(a, a0), ShiftByte(b, b0))
    ensures HighBit(Xor(a, b)) == (HighBit(a) != HighBit(b))
  { }

  lemma FoldIsXor(b: byte)
    ensures Fold(b) == Xor(b, 0x87)
  { }

  lemma FoldXor(a: byte, b: byte)
    ensures Fold(Xor(a, b)) == Xor(Fold(a), b) == Xor(a, Fold(b))
    ensures Xor(Fold(a), Fold(b)) == Xor(a, b)
  {
    hide Xor, Fold;
    FoldIsXor(a);
    FoldIsXor(b);
    FoldIsXor(Xor(a, b));
    XorAssociates(a, b, 0x87);
    XorCommutes(b, 0x87);
    XorAssociates(a, 0x87, b);
    XorAssociates(a, 0x87, Xor(b, 0x87));
    XorAssociates(0x87, 0x87, b);
    FoldTwice(b);
  }

  lemma FoldTwice(b: byte)
    ensures Xor(Xor(0x87, 0x87), b) == b
  { }

  lemma XorZero(a: byte)
    ensures Xor(0, 0) == 0 && Xor(a, a) == 0 && Xor(a, 0) == a && Xor(0, a) == a
  { }

  lemma ShiftLinear(a: Block, b: Block)
    ensures Shift(XorBlock(a, b)) == XorBlock(Shift(a), Shift(b))
  {
    hide Xor, ShiftByte;
    XorZero(0);
    forall i | 0 <= i < BLOCK_LEN ensures Shift(XorBlock(a, b))[i] == XorBlock(Shift(a), Shift(b))[i] {
      ShiftByteLinear(a[i], b[i], if i == 0 then 0 else a[i - 1], if i == 0 then 0 else b[i - 1]);
    }
  }

  lemma FoldFirstXor(a: Block, b: Block, p: bool, q: bool)
    ensures XorBlock(FoldFirst(a, p), FoldFirst(b, q)) == FoldFirst(XorBlock(a, b), p != q)
  {
    hide Xor, Fold;
    FoldXor(a[0], b[0]);
    var l, r := XorBlock(FoldFirst(a, p), FoldFirst(b, q)), FoldFirst(XorBlock(a, b), p != q);
    assert forall i :: 0 <= i < BLOCK_LEN ==> l[i] == r[i];
  }

  /** The step distributes over xor. */
  lemma DoubleLinear(a: Block, b: Block)
    ensures Double(XorBlock(a, b)) == XorBlock(Double(a), Double(b))
  {
    ShiftByteLinear(a[15], b[15], 0, 0);
    assert HighBit(XorBlock(a, b)[15]) == (HighBit(a[15]) != HighBit(b[15]));
    hide XorBlock, Shift, FoldFirst, HighBit;
    ShiftLinear(a, b);
    FoldFirstXor(Shift(a), Shift(b), HighBit(a[15]), HighBit(b[15]));
  }

  lemma ShiftByteInjective(a: byte, b: byte, a0: byte, b0: byte)
    requires ShiftByte(a, a0) == ShiftByte(b, b0) && HighBit(a) == HighBit(b)
    ensures a == b && HighBit(a0) == HighBit(b0)
  { }

  lemma FoldShows(a: byte, b: byte)
    ensures ShiftByte(a, 0) != Fold(ShiftByte(b, 0))
    ensures Fold(a) == Fold(b) ==> a == b
  { }

  /** No two tweaks step to the same tweak. */
  lemma DoubleInjective(a: Block, b: Block)
    requires Double(a) == Double(b)
    ensures a == b
  {
    hide ShiftByte, Fold, HighBit;
    FoldShows(a[0], b[0]);
    FoldShows(b[0], a[0]);
    FoldShows(ShiftByte(a[0], 0), ShiftByte(b[0], 0));
    assert Double(a)[0] == Double(b)[0];
    assert HighBit(a[15]) == HighBit(b[15]);
    forall i | 0 <= i < BLOCK_LEN ensures Shift(a)[i] == Shift(b)[i] {
      assert Double(a)[i] == Double(b)[i];
    }
    ShiftInjectiveFrom(a, b, 0);
  }

  lemma {:induction false} ShiftInjectiveFrom(a: Block, b: Block, i: nat)
    requires i <= 16 && HighBit(a[15]) == HighBit(b[15]) && Shift(a) == Shift(b)
    ensures a[i..] == b[i..] && (i > 0 ==> HighBit(a[i - 1]) == HighBit(b[i - 1]))
    decreases 16 - i
  {
    hide ShiftByte, HighBit;
    if i < 16 {
      ShiftInjectiveFrom(a, b, i + 1);
      assert Shift(a)[i] == Shift(b)[i];
      ShiftByteInjective(a[i], b[i], if i == 0 then 0 else a[i - 1], if i == 0 then 0 else b[i - 1]);
      assert a[i..] == [a[i]] + a[i + 1..] && b[i..] == [b[i]] + b[i + 1..];
    }
  }

  /** alpha^n times the tweak. */
  function Alpha(t: Block, n: nat): Block {
    if n == 0 then t else Double(Alpha(t, n - 1))
  }

  lemma {:induction false} AlphaAdds(t: Block, n: nat, m: nat)
    ensures Alpha(Alpha(t, n), m) == Alpha(t, n + m)
  {
    hide Double;
    if m > 0 {
      AlphaAdds(t, n, m - 1);
    }
  }

  lemma {:induction false} AlphaLinear(a: Block, b: Block, n: nat)
    ensures Alpha(XorBlock(a, b), n) == XorBlock(Alpha(a, n), Alpha(b, n))
  {
    hide Double, XorBlock;
    if n > 0 {
      AlphaLinear(a, b, n - 1);
      DoubleLinear(Alpha(a, n - 1), Alpha(b, n - 1));
    }
  }

  lemma {:induction false} AlphaInjective(a: Block, b: Block, n: nat)
    requires Alpha(a, n) == Alpha(b, n)
    ensures a == b
  {
    hide Double;
    if n > 0 {
      DoubleInjective(Alpha(a, n - 1), Alpha(b, n - 1));
      AlphaInjective(a, b, n - 1);
    }
  }
}
