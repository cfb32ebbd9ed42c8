/**
 Alpha as a root of the modulus of IEEE Std 1619-2007 section 5.2: a hundred and twenty-eight tweak steps are
 the sum of seven, two, one and none, for every tweak.
 */
module AlphaRing {
  import opened Bytes
  import opened Tweak

  // ---- blocks by their coefficients ----

  lemma SameBits(x: byte, y: byte)
    requires forall k :: 0 <= k < 8 ==> Bit(x, k) == Bit(y, k)
    ensures x == y
  {
    hide Bit;
    assert Bit(x, 0) == Bit(y, 0) && Bit(x, 1) == Bit(y, 1) && Bit(x, 2) == Bit(y, 2) && Bit(x, 3) == Bit(y, 3);
    assert Bit(x, 4) == Bit(y, 4) && Bit(x, 5) == Bit(y, 5) && Bit(x, 6) == Bit(y, 6) && Bit(x, 7) == Bit(y, 7);
    BitsOf(x);
    BitsOf(y);
    EightBits(x, y);
  }

  lemma EightBits(x: byte, y: byte)
    requires (x & 0x01 != 0) == (y & 0x01 != 0) && (x & 0x02 != 0) == (y & 0x02 != 0)
    requires (x & 0x04 != 0) == (y & 0x04 != 0) && (x & 0x08 != 0) == (y & 0x08 != 0)
    requires (x & 0x10 != 0) == (y & 0x10 != 0) && (x & 0x20 != 0) == (y & 0x20 != 0)
    requires (x & 0x40 != 0) == (y & 0x40 != 0) && (x & 0x80 != 0) == (y & 0x80 != 0)
    ensures x == y
  { }

  /** A block is determined by its 128 coefficients. */
  lemma SameCoefficients(a: Block, b: Block)
    requires forall n :: 0 <= n < 128 ==> Coefficient(a, n) == Coefficient(b, n)
    ensures a == b
  {
    hide Bit;
    forall i | 0 <= i < BLOCK_LEN ensures a[i] == b[i] {
      forall k | 0 <= k < 8 ensures Bit(a[i], k) == Bit(b[i], k) {
        assert Coefficient(a, 8 * i + k) == Coefficient(b, 8 * i + k);
      }
      SameBits(a[i], b[i]);
    }
  }

  lemma MaskOfXor(x: byte, y: byte)
    ensures (Xor(x, y) & 0x01 != 0) == ((x & 0x01 != 0) != (y & 0x01 != 0))
    ensures (Xor(x, y) & 0x02 != 0) == ((x & 0x02 != 0) != (y & 0x02 != 0))
    ensures (Xor(x, y) & 0x04 != 0) == ((x & 0x04 != 0) != (y & 0x04 != 0))
    ensures (Xor(x, y) & 0x08 != 0) == ((x & 0x08 != 0) != (y & 0x08 != 0))
    ensures (Xor(x, y) & 0x10 != 0) == ((x & 0x10 != 0) != (y & 0x10 != 0))
    ensures (Xor(x, y) & 0x20 != 0) == ((x & 0x20 != 0) != (y & 0x20 != 0))
    ensures (Xor(x, y) & 0x40 != 0) == ((x & 0x40 != 0) != (y & 0x40 != 0))
    ensures (Xor(x, y) & 0x80 != 0) == ((x & 0x80 != 0) != (y & 0x80 != 0))
  { }

  lemma BitOfXor(x: byte, y: byte, k: nat)
    requires k < 8
    ensures Bit(Xor(x, y), k) == (Bit(x, k) != Bit(y, k))
  {
    hide Xor, Bit;
    MaskOfXor(x, y);
    BitsOf(x);
    BitsOf(y);
    BitsOf(Xor(x, y));
    assert k == 0 || k == 1 || k == 2 || k == 3 || k == 4 || k == 5 || k == 6 || k == 7;
  }

  lemma BitsOf(b: byte)
    ensures Bit(b, 0) == (b & 0x01 != 0) && Bit(b, 1) == (b & 0x02 != 0)
    ensures Bit(b, 2) == (b & 0x04 != 0) && Bit(b, 3) == (b & 0x08 != 0)
    ensures Bit(b, 4) == (b & 0x10 != 0) && Bit(b, 5) == (b & 0x20 != 0)
    ensures Bit(b, 6) == (b & 0x40 != 0) && Bit(b, 7) == (b & 0x80 != 0)
  { }

  lemma BitOfSmall(k: nat)
    requires k < 8
    ensures !Bit(0, k) && Bit(1, k) == (k == 0)
  { }

  lemma CoefficientOfXor(a: Block, b: Block, n: nat)
    requires n < 128
    ensures Coefficient(XorBlock(a, b), n) == (Coefficient(a, n) != Coefficient(b, n))
  {
    hide Bit, Xor;
    BitOfXor(a[n / 8], b[n / 8], n % 8);
  }

  lemma CoefficientOfZero(n: nat)
    requires n < 128
    ensures !Coefficient(ZERO_BLOCK, n)
  {
    hide Bit;
    BitOfSmall(n % 8);
    ZeroByte(n / 8);
  }

  lemma ZeroByte(i: nat)
    requires i < BLOCK_LEN
    ensures ZERO_BLOCK[i] == 0
  { }

  // ---- powers of alpha ----

  function One(): Block {
    ZERO_BLOCK[0 := 1]
  }

  /** alpha^n, below the degree of the modulus, has the coefficient n alone. */
  lemma {:induction false} Monomial(n: nat, m: nat)
    requires n < 128 && m < 128
    ensures Coefficient(Alpha(One(), n), m) == (n == m)
  {
    hide Double, Bit;
    if n == 0 {
      BitOfSmall(m % 8);
      ZeroByte(m / 8);
    } else {
      var t := Alpha(One(), n - 1);
      DoubleMultipliesByX(t, m);
      hide Coefficient;
      Monomial(n - 1, 127);
      if m > 0 {
        Monomial(n - 1, m - 1);
      }
    }
  }

  /** What alpha^128 times the tweak is: the remainder of the modulus, x^7 + x^2 + x + 1, at alpha. */
  function Folded(t: Block): Block {
    XorBlock(XorBlock(Alpha(t, 7), Alpha(t, 2)), XorBlock(Alpha(t, 1), t))
  }

  lemma FoldedOne(m: nat)
    requires m < 128
    ensures Coefficient(Folded(One()), m) == (m in {0, 1, 2, 7})
  {
    hide Coefficient, XorBlock, Alpha;
    var o := One();
    var a, b := XorBlock(Alpha(o, 7), Alpha(o, 2)), XorBlock(Alpha(o, 1), o);
    CoefficientOfXor(a, b, m);
    CoefficientOfXor(Alpha(o, 7), Alpha(o, 2), m);
    CoefficientOfXor(Alpha(o, 1), o, m);
    NoStep(o);
    Monomial(7, m);
    Monomial(2, m);
    Monomial(1, m);
    Monomial(0, m);
  }

  lemma NoStep(t: Block)
    ensures Alpha(t, 0) == t
  { }

  lemma LastStep(t: Block)
    ensures Alpha(t, 128) == Double(Alpha(t, 127))
  {
    hide Double;
  }

  lemma RootAtOne()
    ensures Alpha(One(), 128) == Folded(One())
  {
    hide Coefficient, Double, Alpha, Folded;
    LastStep(One());
    forall m | 0 <= m < 128 ensures Coefficient(Alpha(One(), 128), m) == Coefficient(Folded(One()), m) {
      DoubleMultipliesByX(Alpha(One(), 127), m);
      Monomial(127, 127);
      if m > 0 {
        Monomial(127, m - 1);
      }
      FoldedOne(m);
    }
    SameCoefficients(Alpha(One(), 128), Folded(One()));
  }

  // ---- from one to every tweak ----

  lemma XorPairs(a: Block, b: Block, c: Block, d: Block)
    ensures XorBlock(XorBlock(a, b), XorBlock(c, d)) == XorBlock(XorBlock(a, c), XorBlock(b, d))
  {
    hide Xor;
    var l, r := XorBlock(XorBlock(a, b), XorBlock(c, d)), XorBlock(XorBlock(a, c), XorBlock(b, d));
    forall i | 0 <= i < BLOCK_LEN ensures l[i] == r[i] {
      XorFour(a[i], b[i], c[i], d[i]);
    }
  }

  lemma XorFour(a: byte, b: byte, c: byte, d: byte)
    ensures Xor(Xor(a, b), Xor(c, d)) == Xor(Xor(a, c), Xor(b, d))
  {
    hide Xor;
    XorAssociates(a, b, Xor(c, d));
    XorAssociates(b, c, d);
    XorCommutes(b, c);
    XorAssociates(c, b, d);
    XorAssociates(a, c, Xor(b, d));
  }

  lemma FoldedLinear(a: Block, b: Block)
    ensures Folded(XorBlock(a, b)) == XorBlock(Folded(a), Folded(b))
  {
    hide Alpha, XorBlock;
    AlphaLinear(a, b, 7);
    AlphaLinear(a, b, 2);
    AlphaLinear(a, b, 1);
    XorPairs(Alpha(a, 7), Alpha(b, 7), Alpha(a, 2), Alpha(b, 2));
    XorPairs(Alpha(a, 1), Alpha(b, 1), a, b);
    XorPairs(XorBlock(Alpha(a, 7), Alpha(a, 2)), XorBlock(Alpha(b, 7), Alpha(b, 2)),
             XorBlock(Alpha(a, 1), a), XorBlock(Alpha(b, 1), b));
  }

  /** Folding commutes with steps. */
  lemma FoldedLater(t: Block, n: nat)
    ensures Folded(Alpha(t, n)) == Alpha(Folded(t), n)
  {
    hide Alpha, XorBlock;
    AlphaLinear(XorBlock(Alpha(t, 7), Alpha(t, 2)), XorBlock(Alpha(t, 1), t), n);
    AlphaLinear(Alpha(t, 7), Alpha(t, 2), n);
    AlphaLinear(Alpha(t, 1), t, n);
    AlphaAdds(t, 7, n);
    AlphaAdds(t, 2, n);
    AlphaAdds(t, 1, n);
    AlphaAdds(t, n, 7);
    AlphaAdds(t, n, 2);
    AlphaAdds(t, n, 1);
  }

  /** The sum of the powers below `n` that `t` has. */
  function Part(t: Block, n: nat): Block
    requires n <= 128
  {
    if n == 0 then ZERO_BLOCK
    else if Coefficient(t, n - 1) then XorBlock(Part(t, n - 1), Alpha(One(), n - 1))
    else Part(t, n - 1)
  }

  lemma {:induction false} PartCoefficients(t: Block, n: nat, m: nat)
    requires n <= 128 && m < 128
    ensures Coefficient(Part(t, n), m) == (m < n && Coefficient(t, m))
  {
    hide Coefficient, Alpha, XorBlock;
    if n == 0 {
      CoefficientOfZero(m);
    } else {
      PartCoefficients(t, n - 1, m);
      CoefficientOfXor(Part(t, n - 1), Alpha(One(), n - 1), m);
      Monomial(n - 1, m);
    }
  }

  lemma WholeIsPart(t: Block)
    ensures Part(t, 128) == t
  {
    hide Coefficient, Part;
    forall m | 0 <= m < 128 ensures Coefficient(Part(t, 128), m) == Coefficient(t, m) {
      PartCoefficients(t, 128, m);
    }
    SameCoefficients(Part(t, 128), t);
  }

  lemma RootAtZero()
    ensures Alpha(ZERO_BLOCK, 128) == Folded(ZERO_BLOCK) == ZERO_BLOCK
  {
    hide Alpha, XorBlock;
    var z := ZERO_BLOCK;
    XorBlockZero(z, z);
    AlphaLinear(z, z, 128);
    AlphaLinear(z, z, 7);
    AlphaLinear(z, z, 2);
    AlphaLinear(z, z, 1);
    XorBlockZero(Alpha(z, 128), Alpha(z, 128));
    XorBlockZero(Alpha(z, 7), Alpha(z, 7));
    XorBlockZero(Alpha(z, 2), Alpha(z, 2));
    XorBlockZero(Alpha(z, 1), Alpha(z, 1));
  }

  lemma {:induction false} RootAtPart(t: Block, n: nat)
    requires n <= 128
    ensures Alpha(Part(t, n), 128) == Folded(Part(t, n))
  {
    hide Coefficient, Alpha, Folded, XorBlock;
    if n == 0 {
      RootAtZero();
    } else {
      RootAtPart(t, n - 1);
      var p, m := Part(t, n - 1), Alpha(One(), n - 1);
      AlphaLinear(p, m, 128);
      FoldedLinear(p, m);
      RootAtOne();
      FoldedLater(One(), n - 1);
      AlphaAdds(One(), n - 1, 128);
      AlphaAdds(One(), 128, n - 1);
    }
  }

  /** alpha^128 = alpha^7 + alpha^2 + alpha + 1, on every tweak. */
  lemma AlphaRoot(t: Block)
    ensures Alpha(t, 128) == Folded(t)
  {
    hide Alpha, Folded, Part;
    WholeIsPart(t);
    RootAtPart(t, 128);
  }

  // ---- squares ----

  function Pow2(k: nat): nat {
    if k == 0 then 1 else 2 * Pow2(k - 1)
  }

  /** The same sum with every power `n` times as high. */
  function FoldedBy(t: Block, n: nat): Block {
    XorBlock(XorBlock(Alpha(t, 7 * n), Alpha(t, 2 * n)), XorBlock(Alpha(t, n), t))
  }

  lemma CancelMiddle(a: Block, b: Block, c: Block)
    ensures XorBlock(XorBlock(a, b), XorBlock(b, c)) == XorBlock(a, c)
  {
    hide Xor;
    var l, r := XorBlock(XorBlock(a, b), XorBlock(b, c)), XorBlock(a, c);
    forall i | 0 <= i < BLOCK_LEN ensures l[i] == r[i] {
      XorAssociates(a[i], b[i], Xor(b[i], c[i]));
      XorAssociates(b[i], b[i], c[i]);
      XorItself(b[i], c[i]);
    }
  }

  lemma XorItself(x: byte, y: byte)
    ensures Xor(x, x) == 0 && Xor(0, y) == y
  { }

  /** A square of sixteen blocks, mirrored at its diagonal, sums to the diagonal. */
  lemma MirroredSum(p: Block, q: Block, r: Block, s: Block,
                    pq: Block, pr: Block, ps: Block, qr: Block, qs: Block, rs: Block)
    ensures XorBlock(XorBlock(XorBlock(XorBlock(p, pq), XorBlock(pr, ps)), XorBlock(XorBlock(pq, q), XorBlock(qr, qs))),
                     XorBlock(XorBlock(XorBlock(pr, qr), XorBlock(r, rs)), XorBlock(XorBlock(ps, qs), XorBlock(rs, s))))
         == XorBlock(XorBlock(p, q), XorBlock(r, s))
  {
    hide XorBlock;
    XorPairs(XorBlock(p, pq), XorBlock(pr, ps), XorBlock(pq, q), XorBlock(qr, qs));
    CancelMiddle(p, pq, q);
    XorPairs(pr, ps, qr, qs);
    XorPairs(XorBlock(pr, qr), XorBlock(r, rs), XorBlock(ps, qs), XorBlock(rs, s));
    CancelMiddle(r, rs, s);
    CancelMiddle(XorBlock(p, q), XorBlock(XorBlock(pr, qr), XorBlock(ps, qs)), XorBlock(r, s));
  }

  /** `m` steps of the sum. */
  lemma StepsOfSum(t: Block, n: nat, m: nat)
    ensures Alpha(FoldedBy(t, n), m)
         == XorBlock(XorBlock(Alpha(t, 7 * n + m), Alpha(t, 2 * n + m)), XorBlock(Alpha(t, n + m), Alpha(t, m)))
  {
    hide Alpha, XorBlock;
    AlphaLinear(XorBlock(Alpha(t, 7 * n), Alpha(t, 2 * n)), XorBlock(Alpha(t, n), t), m);
    AlphaLinear(Alpha(t, 7 * n), Alpha(t, 2 * n), m);
    AlphaLinear(Alpha(t, n), t, m);
    AlphaAdds(t, 7 * n, m);
    AlphaAdds(t, 2 * n, m);
    AlphaAdds(t, n, m);
  }

  /** The square of the sum has the squares of its terms. */
  lemma SumSquared(t: Block, n: nat)
    ensures FoldedBy(FoldedBy(t, n), n) == FoldedBy(t, 2 * n)
  {
    hide Alpha, XorBlock;
    StepsOfSum(t, n, 7 * n);
    StepsOfSum(t, n, 2 * n);
    StepsOfSum(t, n, n);
    MirroredSum(Alpha(t, 14 * n), Alpha(t, 4 * n), Alpha(t, 2 * n), t,
                Alpha(t, 9 * n), Alpha(t, 8 * n), Alpha(t, 7 * n),
                Alpha(t, 3 * n), Alpha(t, 2 * n), Alpha(t, n));
  }

  /** alpha^(128 * 2^k) = alpha^(7 * 2^k) + alpha^(2 * 2^k) + alpha^(2^k) + 1, on every tweak. */
  lemma {:induction false} AlphaRootPower(t: Block, k: nat)
    ensures Alpha(t, 128 * Pow2(k)) == FoldedBy(t, Pow2(k))
    decreases k
  {
    hide Alpha, XorBlock;
    if k == 0 {
      AlphaRoot(t);
    } else {
      var n := Pow2(k - 1);
      AlphaRootPower(t, k - 1);
      AlphaRootPower(FoldedBy(t, n), k - 1);
      AlphaAdds(t, 128 * n, 128 * n);
      SumSquared(t, n);
    }
  }
}
