/** One output byte of MixColumns and InvMixColumns: the folded forms of aes.c and the matrix rows of FIPS 197. */
module MixRows {
  import opened Bytes
  import opened GaloisField

  // ---- sums of three and four ----

  function Xor3(a: byte, b: byte, c: byte): byte {
    a ^ b ^ c
  }

  function Xor4(a: byte, b: byte, c: byte, d: byte): byte {
    a ^ b ^ c ^ d
  }

  lemma XTimeXor3(a: byte, b: byte, c: byte)
    ensures XTime(Xor3(a, b, c)) == Xor3(XTime(a), XTime(b), XTime(c))
  {
    forall a, b, c ensures Xor3(a, b, c) == Xor(Xor(a, b), c) { }
    hide XTime, Xor, Xor3;
    XTimeLinear(a, b);
    XTimeLinear(Xor(a, b), c);
  }

  lemma XTimeXor4(a: byte, b: byte, c: byte, d: byte)
    ensures XTime(Xor4(a, b, c, d)) == Xor4(XTime(a), XTime(b), XTime(c), XTime(d))
  {
    forall a, b, c, d ensures Xor4(a, b, c, d) == Xor(Xor(a, b), Xor(c, d)) { }
    hide XTime, Xor, Xor4;
    XTimeLinear(a, b);
    XTimeLinear(c, d);
    XTimeLinear(Xor(a, b), Xor(c, d));
  }

  // The constants of the two column matrices as sums of repeated xtime.

  lemma Constants()
    ensures Xor(2, 1) == 3 && Xor(8, 1) == 9
    ensures Xor(9, 2) == 11 && Xor(9, 4) == 13 && Xor(Xor(2, 4), 8) == 14
  { }

  lemma Xor3Nested(a: byte, b: byte, c: byte)
    ensures Xor3(a, b, c) == Xor(Xor(a, b), c) == Xor(Xor(a, c), b)
  {
    Xor3AsXor(a, b, c);
    hide Xor, Xor3;
    XorAssociates(a, b, c);
    XorCommutes(b, c);
    XorAssociates(a, c, b);
  }

  lemma GfMulBy2And3(x: byte)
    ensures GfMul(x, 2) == XTime(x)
    ensures GfMul(x, 3) == Xor(x, XTime(x))
  {
    hide GfMul, XTime, Xor;
    XTimeIsGfMul2(x);
    TimesOne(x);
    Constants();
    GfMulAdds(x, 2, 1);
    XorCommutes(x, XTime(x));
  }

  lemma GfMulBy9(x: byte)
    ensures GfMul(x, 9) == Xor(x, XTime(XTime(XTime(x))))
  {
    hide GfMul, XTime, Xor;
    TimesOne(x);
    Times8(x);
    Constants();
    GfMulAdds(x, 8, 1);
    XorCommutes(x, XTime(XTime(XTime(x))));
  }

  lemma GfMulBy11(x: byte)
    ensures GfMul(x, 11) == Xor3(x, XTime(x), XTime(XTime(XTime(x))))
  {
    hide GfMul, XTime, Xor, Xor3;
    GfMulBy9(x);
    XTimeIsGfMul2(x);
    Constants();
    GfMulAdds(x, 9, 2);
    Xor3Nested(x, XTime(x), XTime(XTime(XTime(x))));
  }

  lemma GfMulBy13(x: byte)
    ensures GfMul(x, 13) == Xor3(x, XTime(XTime(x)), XTime(XTime(XTime(x))))
  {
    hide GfMul, XTime, Xor, Xor3;
    GfMulBy9(x);
    Times4(x);
    Constants();
    GfMulAdds(x, 9, 4);
    Xor3Nested(x, XTime(XTime(x)), XTime(XTime(XTime(x))));
  }

  lemma GfMulBy14(x: byte)
    ensures GfMul(x, 14) == Xor3(XTime(x), XTime(XTime(x)), XTime(XTime(XTime(x))))
  {
    hide GfMul, XTime, Xor, Xor3;
    XTimeIsGfMul2(x);
    Times4(x);
    Times8(x);
    Constants();
    GfMulAdds(x, 2, 4);
    GfMulAdds(x, Xor(2, 4), 8);
    Xor3Nested(XTime(x), XTime(XTime(x)), XTime(XTime(XTime(x))));
  }

  // ---- columns: the matrix products of FIPS 197 sections 5.1.3 and 5.3.3 ----

  function MixRow(a: byte, b: byte, c: byte, d: byte): byte {
    Xor4(GfMul(a, 2), GfMul(b, 3), c, d)
  }

  function InvMixRow(a: byte, b: byte, c: byte, d: byte): byte {
    Xor4(GfMul(a, 14), GfMul(b, 11), GfMul(c, 13), GfMul(d, 9))
  }

  /** What the body of MixColumns leaves in one byte, with `sum` the xor of the column. */
  function MixByte(a: byte, a1: byte, b1: byte, sum: byte): byte {
    a ^ a1 ^ b1 ^ sum
  }

  lemma MixByteSum(a: byte, b: byte, c: byte, d: byte, a1: byte, b1: byte)
    ensures Xor4(a1, Xor(b, b1), c, d) == MixByte(a, a1, b1, Xor4(a, b, c, d))
  { }

  lemma MixRowAsSum(a: byte, b: byte, c: byte, d: byte)
    ensures MixRow(a, b, c, d) == MixByte(a, XTime(a), XTime(b), Xor4(a, b, c, d))
  {
    hide XTime, GfMul, Xor, Xor4, MixByte;
    GfMulBy2And3(a);
    GfMulBy2And3(b);
    MixByteSum(a, b, c, d, XTime(a), XTime(b));
  }

  lemma FoldedByte(a: byte, a1: byte, b1: byte, sum: byte)
    ensures Xor(a, Xor(Xor(a1, b1), sum)) == MixByte(a, a1, b1, sum)
  { }

  /** The `Tmp`/`Tm` form of MixColumns computes the matrix row. */
  lemma MixRowByFolding(a: byte, b: byte, c: byte, d: byte)
    ensures MixRow(a, b, c, d) == Xor(a, Xor(XTime(Xor(a, b)), Xor4(a, b, c, d)))
  {
    hide XTime, Xor, Xor4, MixByte, MixRow;
    MixRowAsSum(a, b, c, d);
    XTimeLinear(a, b);
    FoldedByte(a, XTime(a), XTime(b), Xor4(a, b, c, d));
  }

  /** The Multiply form of InvMixColumns computes the inverse row. */
  lemma InvMixRowByMultiply(a: byte, b: byte, c: byte, d: byte)
    ensures InvMixRow(a, b, c, d) == Xor4(Multiply(a, 0x0e), Multiply(b, 0x0b), Multiply(c, 0x0d), Multiply(d, 0x09))
  {
    hide Multiply, GfMul, Xor4;
    MultiplyIsGfMul(0x0e);
    MultiplyIsGfMul(0x0b);
    MultiplyIsGfMul(0x0d);
    MultiplyIsGfMul(0x09);
  }

  lemma SumOfPairs(p: byte, q: byte, r: byte, t: byte)
    ensures Xor4(p, q, r, t) == Xor(Xor(p, q), Xor(r, t))
  { }

  function Xor8(a: byte, b: byte, c: byte, d: byte, e: byte, f: byte, g: byte, h: byte): byte {
    a ^ b ^ c ^ d ^ e ^ f ^ g ^ h
  }

  lemma Xor8ByPairs(a: byte, b: byte, c: byte, d: byte, e: byte, f: byte, g: byte, h: byte)
    ensures Xor4(Xor(a, b), Xor(c, d), Xor(e, f), Xor(g, h)) == Xor8(a, b, c, d, e, f, g, h)
  { }

  lemma Xor8BySides(a: byte, b: byte, c: byte, d: byte, e: byte, f: byte, g: byte, h: byte)
    ensures Xor(Xor4(a, c, e, g), Xor4(b, d, f, h)) == Xor8(a, b, c, d, e, f, g, h)
  { }

  lemma SplitLast(x: byte, y: byte, z: byte, w: byte, a: byte, b: byte, c: byte, d: byte)
    ensures Xor4(Xor(x, a), Xor(y, b), Xor(z, c), Xor(w, d)) == Xor(Xor4(x, y, z, w), Xor4(a, b, c, d))
  {
    hide Xor, Xor4, Xor8;
    Xor8ByPairs(x, a, y, b, z, c, w, d);
    Xor8BySides(x, a, y, b, z, c, w, d);
  }

  lemma Xor8Left(a1: byte, a2: byte, b: byte, b1: byte, c: byte, c2: byte, d: byte, s: byte)
    ensures Xor(Xor4(Xor(a1, a2), Xor(b, b1), Xor(c, c2), d), s) == Xor8(a1, a2, b, b1, c, c2, d, s)
  { }

  lemma Xor8Right(a1: byte, a2: byte, b: byte, b1: byte, c: byte, c2: byte, d: byte, s: byte)
    ensures Xor4(Xor3(a1, b1, Xor3(a2, c2, s)), b, c, d) == Xor8(a1, a2, b, b1, c, c2, d, s)
  { }

  lemma Regroup(a1: byte, a2: byte, b: byte, b1: byte, c: byte, c2: byte, d: byte, s: byte)
    ensures Xor(Xor4(Xor(a1, a2), Xor(b, b1), Xor(c, c2), d), s)
         == Xor4(Xor3(a1, b1, Xor3(a2, c2, s)), b, c, d)
  {
    hide Xor, Xor3, Xor4, Xor8;
    Xor8Left(a1, a2, b, b1, c, c2, d, s);
    Xor8Right(a1, a2, b, b1, c, c2, d, s);
  }

  lemma Xor3AsXor(a: byte, b: byte, c: byte)
    ensures Xor3(a, b, c) == Xor(Xor(a, b), c)
  { }

  /** The inverse row by nested xtime, so that three sums of its arguments determine it. */
  lemma InvMixRowNested(a: byte, b: byte, c: byte, d: byte)
    ensures InvMixRow(a, b, c, d)
         == Xor4(XTime(Xor3(a, b, XTime(Xor3(a, c, XTime(Xor4(a, b, c, d)))))), b, c, d)
  {
    hide XTime, GfMul, Xor, Xor3, Xor4;
    var a1, b1, c1, d1 := XTime(a), XTime(b), XTime(c), XTime(d);
    var a2, b2, c2, d2 := XTime(a1), XTime(b1), XTime(c1), XTime(d1);
    var a3, b3, c3, d3 := XTime(a2), XTime(b2), XTime(c2), XTime(d2);
    var s1, s2, s3 := Xor4(a1, b1, c1, d1), Xor4(a2, b2, c2, d2), Xor4(a3, b3, c3, d3);
    GfMulBy14(a);
    GfMulBy11(b);
    GfMulBy13(c);
    GfMulBy9(d);
    Xor3AsXor(a1, a2, a3);
    Xor3AsXor(b, b1, b3);
    Xor3AsXor(c, c2, c3);
    SplitLast(Xor(a1, a2), Xor(b, b1), Xor(c, c2), d, a3, b3, c3, d3);
    Regroup(a1, a2, b, b1, c, c2, d, s3);
    XTimeXor4(a, b, c, d);
    XTimeXor4(a1, b1, c1, d1);
    XTimeXor4(a2, b2, c2, d2);
    XTimeXor3(a, c, s1);
    XTimeXor3(a1, c1, s2);
    XTimeXor3(a, b, Xor3(a1, c1, s2));
  }

  lemma Rotate(a: byte, b: byte, c: byte, d: byte)
    ensures Xor4(a, b, c, d) == Xor4(b, c, d, a)
  { }

  lemma MixSum(a: byte, b: byte, c: byte, d: byte, a1: byte, b1: byte, c1: byte, d1: byte)
    ensures var s := Xor4(a, b, c, d);
            Xor4(MixByte(a, a1, b1, s), MixByte(b, b1, c1, s), MixByte(c, c1, d1, s), MixByte(d, d1, a1, s)) == s
  { }

  lemma MixOpposite(a: byte, c: byte, a1: byte, b1: byte, c1: byte, d1: byte, s: byte)
    ensures Xor3(MixByte(a, a1, b1, s), MixByte(c, c1, d1, s), Xor4(a1, b1, c1, d1)) == Xor(a, c)
  { }

  lemma MixAdjacent(a: byte, b: byte, a1: byte, b1: byte, c1: byte, s: byte)
    ensures Xor3(MixByte(a, a1, b1, s), MixByte(b, b1, c1, s), Xor(a1, c1)) == Xor(a, b)
  { }

  lemma MixRest(a: byte, b: byte, c: byte, d: byte, a1: byte, b1: byte, c1: byte, d1: byte)
    ensures var s := Xor4(a, b, c, d);
            Xor4(Xor(a1, b1), MixByte(b, b1, c1, s), MixByte(c, c1, d1, s), MixByte(d, d1, a1, s)) == a
  { }

  /** The inverse matrix undoes the matrix, row by row. */
  lemma InvMixRowOfMixRow(a: byte, b: byte, c: byte, d: byte)
    ensures InvMixRow(MixRow(a, b, c, d), MixRow(b, c, d, a), MixRow(c, d, a, b), MixRow(d, a, b, c)) == a
  {
    hide XTime, Xor, Xor3, Xor4, InvMixRow, MixRow, MixByte;
    var s := Xor4(a, b, c, d);
    var a1, b1, c1, d1 := XTime(a), XTime(b), XTime(c), XTime(d);
    Rotate(a, b, c, d);
    Rotate(b, c, d, a);
    Rotate(c, d, a, b);
    MixRowAsSum(a, b, c, d);
    MixRowAsSum(b, c, d, a);
    MixRowAsSum(c, d, a, b);
    MixRowAsSum(d, a, b, c);
    InvMixRowNested(MixRow(a, b, c, d), MixRow(b, c, d, a), MixRow(c, d, a, b), MixRow(d, a, b, c));
    XTimeXor4(a, b, c, d);
    XTimeLinear(a, b);
    XTimeLinear(a, c);
    MixSum(a, b, c, d, a1, b1, c1, d1);
    MixOpposite(a, c, a1, b1, c1, d1, s);
    MixAdjacent(a, b, a1, b1, c1, s);
    MixRest(a, b, c, d, a1, b1, c1, d1);
  }

  // The other order: write each inverse byte as u ^ a ^ s, with u the outer xtime.

  lemma InvByteSum(u: byte, a: byte, b: byte, c: byte, d: byte)
    ensures Xor4(u, b, c, d) == Xor3(u, a, Xor4(a, b, c, d))
  { }

  /** The nested argument of the inverse row: the inverse byte is XTime of it, plus a and the sum. */
  function Inner(a: byte, b: byte, c: byte, s: byte): byte {
    Xor3(a, b, XTime(Xor3(a, c, XTime(s))))
  }

  lemma InvMixRowAsInner(a: byte, b: byte, c: byte, d: byte)
    ensures var s := Xor4(a, b, c, d);
            InvMixRow(a, b, c, d) == Xor3(XTime(Inner(a, b, c, s)), a, s)
  {
    hide XTime, Xor, Xor3, Xor4, InvMixRow;
    InvMixRowNested(a, b, c, d);
    InvByteSum(XTime(Inner(a, b, c, Xor4(a, b, c, d))), a, b, c, d);
  }

  lemma CancelCommon(x: byte, y: byte, a: byte, b: byte, s: byte)
    ensures Xor(Xor3(x, a, s), Xor3(y, b, s)) == Xor3(a, b, Xor(x, y))
  { }

  lemma Middle(a: byte, b: byte, c: byte, v: byte, w: byte)
    ensures Xor(Xor3(a, b, v), Xor3(b, c, w)) == Xor3(a, c, Xor(v, w))
  { }

  lemma Opposites(a: byte, b: byte, c: byte, d: byte, t: byte)
    ensures Xor(Xor3(a, c, t), Xor3(b, d, t)) == Xor4(a, b, c, d)
  { }

  lemma Xor3Commutes(a: byte, b: byte, t: byte)
    ensures Xor3(a, b, t) == Xor3(b, a, t)
  { }

  /** Neighbouring inverse bytes differ by the inner argument of the first. */
  lemma InvNeighbours(a: byte, b: byte, c: byte, d: byte)
    ensures Xor(InvMixRow(a, b, c, d), InvMixRow(b, c, d, a)) == Inner(a, b, c, Xor4(a, b, c, d))
  {
    hide XTime, Xor, Xor3, Xor4, InvMixRow;
    var s := Xor4(a, b, c, d);
    Rotate(a, b, c, d);
    InvMixRowAsInner(a, b, c, d);
    InvMixRowAsInner(b, c, d, a);
    var v, w := Xor3(a, c, XTime(s)), Xor3(b, d, XTime(s));
    CancelCommon(XTime(Inner(a, b, c, s)), XTime(Inner(b, c, d, s)), a, b, s);
    XTimeLinear(Inner(a, b, c, s), Inner(b, c, d, s));
    Middle(a, b, c, XTime(v), XTime(w));
    XTimeLinear(v, w);
    Opposites(a, b, c, d, XTime(s));
  }

  lemma InvSum(a: byte, b: byte, c: byte, d: byte, x: byte)
    ensures Xor(Xor3(a, b, x), Xor3(c, d, x)) == Xor4(a, b, c, d)
  { }

  lemma LastStep(u: byte, a: byte, s: byte)
    ensures Xor3(Xor3(u, a, s), u, s) == a
  { }

  lemma MixByteAsXor3(p: byte, p1: byte, q1: byte, s: byte)
    ensures MixByte(p, p1, q1, s) == Xor3(p, Xor(p1, q1), s)
  { }

  /** The matrix undoes the inverse matrix, row by row. */
  lemma MixRowOfInvMixRow(a: byte, b: byte, c: byte, d: byte)
    ensures MixRow(InvMixRow(a, b, c, d), InvMixRow(b, c, d, a), InvMixRow(c, d, a, b), InvMixRow(d, a, b, c)) == a
  {
    hide XTime, Xor, Xor3, Xor4, InvMixRow, MixRow, MixByte;
    var p, q, r, t := InvMixRow(a, b, c, d), InvMixRow(b, c, d, a), InvMixRow(c, d, a, b), InvMixRow(d, a, b, c);
    var s := Xor4(a, b, c, d);
    Rotate(a, b, c, d);
    Rotate(b, c, d, a);
    InvNeighbours(a, b, c, d);
    InvNeighbours(c, d, a, b);
    Xor3Commutes(a, c, XTime(s));
    SumOfPairs(p, q, r, t);
    InvSum(a, b, c, d, XTime(Xor3(a, c, XTime(s))));
    MixRowAsSum(p, q, r, t);
    XTimeLinear(p, q);
    InvMixRowAsInner(a, b, c, d);
    MixByteAsXor3(p, XTime(p), XTime(q), s);
    LastStep(XTime(Inner(a, b, c, s)), a, s);
  }
}
