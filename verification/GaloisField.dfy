/**
 The field GF(2^8) of FIPS 197 section 4, defined by polynomial multiplication and reduction: its product
 distributes over xor and is associative, and xtime and Multiply of aes.c compute in it.
 */
module GaloisField {
  import opened Bytes

  function Xor16(p: bv16, q: bv16): bv16 {
    p ^ q
  }

  /** The polynomial `a`, if `y` has the coefficient. */
  function Term(y: byte, bit: byte, a: bv16): bv16 {
    if y & bit != 0 then a else 0
  }

  function Sum8(a: bv16, b: bv16, c: bv16, d: bv16, e: bv16, f: bv16, g: bv16, h: bv16): bv16 {
    Xor16(Xor16(Xor16(Xor16(Xor16(Xor16(Xor16(a, b), c), d), e), f), g), h)
  }

  /** Product of two polynomials over GF(2), not reduced: coefficients 0 to 14. */
  function PolyMul(x: byte, y: byte): bv16 {
    var a := x as bv16;
    Sum8(Term(y, 0x01, a), Term(y, 0x02, a << 1), Term(y, 0x04, a << 2), Term(y, 0x08, a << 3),
         Term(y, 0x10, a << 4), Term(y, 0x20, a << 5), Term(y, 0x40, a << 6), Term(y, 0x80, a << 7))
  }

  /** One step of the reduction: `m` is taken off if the leading coefficient `bit` is there. */
  function ReduceAt(p: bv16, bit: bv16, m: bv16): bv16 {
    if p & bit != 0 then Xor16(p, m) else p
  }

  /** Multiples of x^8 + x^4 + x^3 + x + 1 taken off, one leading coefficient at a time. */
  function Reduced(p: bv16): bv16 {
    ReduceAt(ReduceAt(ReduceAt(ReduceAt(ReduceAt(ReduceAt(ReduceAt(p,
      0x4000, 0x11b << 6), 0x2000, 0x11b << 5), 0x1000, 0x11b << 4), 0x0800, 0x11b << 3),
      0x0400, 0x11b << 2), 0x0200, 0x11b << 1), 0x0100, 0x11b)
  }

  /** The remainder. */
  function PolyMod(p: bv16): byte {
    LowByte(Reduced(p))
  }

  function LowByte(p: bv16): byte {
    (p & 0xff) as byte
  }

  /** Multiplication in GF(2^8). */
  function GfMul(x: byte, y: byte): byte {
    PolyMod(PolyMul(x, y))
  }

  // ---- xtime ----

  function XTime(x: byte): byte {
    (x << 1) ^ (((x >> 7) & 1) * 0x1b)
  }

  lemma XTimeLinear(x: byte, y: byte)
    ensures XTime(Xor(x, y)) == Xor(XTime(x), XTime(y))
  { }

  // ---- the product distributes ----

  lemma Xor16Associates(a: bv16, b: bv16, c: bv16)
    ensures Xor16(Xor16(a, b), c) == Xor16(a, Xor16(b, c))
  { }

  lemma Xor16Commutes(a: bv16, b: bv16)
    ensures Xor16(a, b) == Xor16(b, a)
  { }

  lemma Xor16Exchange(a: bv16, b: bv16, c: bv16, d: bv16)
    ensures Xor16(Xor16(a, b), Xor16(c, d)) == Xor16(Xor16(a, c), Xor16(b, d))
  {
    hide Xor16;
    Xor16Associates(a, b, Xor16(c, d));
    Xor16Associates(b, c, d);
    Xor16Commutes(b, c);
    Xor16Associates(c, b, d);
    Xor16Associates(a, c, Xor16(b, d));
  }

  predicate OneBit(bit: bv16) {
    || bit == 0x4000 || bit == 0x2000 || bit == 0x1000 || bit == 0x0800
    || bit == 0x0400 || bit == 0x0200 || bit == 0x0100
  }

  lemma BitOfXor(p: bv16, q: bv16, bit: bv16)
    requires OneBit(bit)
    ensures Xor16(p, q) & bit != 0 <==> (p & bit != 0) != (q & bit != 0)
  { }

  lemma TakeOff(p: bv16, q: bv16, m: bv16)
    ensures Xor16(Xor16(p, m), q) == Xor16(Xor16(p, q), m)
    ensures Xor16(p, Xor16(q, m)) == Xor16(Xor16(p, q), m)
    ensures Xor16(Xor16(p, m), Xor16(q, m)) == Xor16(p, q)
  {
    hide Xor16;
    Xor16Associates(p, m, q);
    Xor16Commutes(m, q);
    Xor16Associates(p, q, m);
    Xor16Exchange(p, m, q, m);
    Xor16Zero(m);
    Xor16Zero(Xor16(p, q));
  }

  lemma ReduceAdds(p: bv16, q: bv16, bit: bv16, m: bv16)
    requires OneBit(bit)
    ensures ReduceAt(Xor16(p, q), bit, m) == Xor16(ReduceAt(p, bit, m), ReduceAt(q, bit, m))
  {
    hide Xor16, OneBit;
    BitOfXor(p, q, bit);
    TakeOff(p, q, m);
  }

  lemma LowByteAdds(p: bv16, q: bv16)
    ensures LowByte(Xor16(p, q)) == Xor(LowByte(p), LowByte(q))
  { }

  lemma ReducedAdds(p: bv16, q: bv16)
    ensures Reduced(Xor16(p, q)) == Xor16(Reduced(p), Reduced(q))
  {
    hide Xor16, ReduceAt;
    ReduceAdds(p, q, 0x4000, 0x11b << 6);
    var p1, q1 := ReduceAt(p, 0x4000, 0x11b << 6), ReduceAt(q, 0x4000, 0x11b << 6);
    ReduceAdds(p1, q1, 0x2000, 0x11b << 5);
    var p2, q2 := ReduceAt(p1, 0x2000, 0x11b << 5), ReduceAt(q1, 0x2000, 0x11b << 5);
    ReduceAdds(p2, q2, 0x1000, 0x11b << 4);
    var p3, q3 := ReduceAt(p2, 0x1000, 0x11b << 4), ReduceAt(q2, 0x1000, 0x11b << 4);
    ReduceAdds(p3, q3, 0x0800, 0x11b << 3);
    var p4, q4 := ReduceAt(p3, 0x0800, 0x11b << 3), ReduceAt(q3, 0x0800, 0x11b << 3);
    ReduceAdds(p4, q4, 0x0400, 0x11b << 2);
    var p5, q5 := ReduceAt(p4, 0x0400, 0x11b << 2), ReduceAt(q4, 0x0400, 0x11b << 2);
    ReduceAdds(p5, q5, 0x0200, 0x11b << 1);
    ReduceAdds(ReduceAt(p5, 0x0200, 0x11b << 1), ReduceAt(q5, 0x0200, 0x11b << 1), 0x0100, 0x11b);
  }

  lemma PolyModAdds(p: bv16, q: bv16)
    ensures PolyMod(Xor16(p, q)) == Xor(PolyMod(p), PolyMod(q))
  {
    hide Reduced, LowByte, Xor16, Xor;
    ReducedAdds(p, q);
    LowByteAdds(Reduced(p), Reduced(q));
  }

  predicate OneCoefficient(bit: byte) {
    || bit == 0x01 || bit == 0x02 || bit == 0x04 || bit == 0x08
    || bit == 0x10 || bit == 0x20 || bit == 0x40 || bit == 0x80
  }

  lemma CoefficientOfXor(y: byte, z: byte, bit: byte)
    requires OneCoefficient(bit)
    ensures Xor(y, z) & bit != 0 <==> (y & bit != 0) != (z & bit != 0)
  { }

  lemma TermAdds(y: byte, z: byte, bit: byte, a: bv16)
    requires OneCoefficient(bit)
    ensures Term(Xor(y, z), bit, a) == Xor16(Term(y, bit, a), Term(z, bit, a))
  {
    hide Xor, Xor16, OneCoefficient;
    CoefficientOfXor(y, z, bit);
    Xor16Zero(a);
  }

  lemma Xor16Zero(a: bv16)
    ensures Xor16(a, a) == 0 && Xor16(a, 0) == a && Xor16(0, a) == a && Xor16(0, 0) == 0
  { }

  lemma Sum8Adds(a: bv16, b: bv16, c: bv16, d: bv16, e: bv16, f: bv16, g: bv16, h: bv16,
                 i: bv16, j: bv16, k: bv16, l: bv16, m: bv16, n: bv16, o: bv16, p: bv16)
    ensures Sum8(Xor16(a, i), Xor16(b, j), Xor16(c, k), Xor16(d, l), Xor16(e, m), Xor16(f, n), Xor16(g, o), Xor16(h, p))
         == Xor16(Sum8(a, b, c, d, e, f, g, h), Sum8(i, j, k, l, m, n, o, p))
  {
    hide Xor16;
    var s, t := Xor16(a, b), Xor16(i, j);
    Xor16Exchange(a, i, b, j);
    Xor16Exchange(s, t, c, k);
    var s1, t1 := Xor16(s, c), Xor16(t, k);
    Xor16Exchange(s1, t1, d, l);
    var s2, t2 := Xor16(s1, d), Xor16(t1, l);
    Xor16Exchange(s2, t2, e, m);
    var s3, t3 := Xor16(s2, e), Xor16(t2, m);
    Xor16Exchange(s3, t3, f, n);
    var s4, t4 := Xor16(s3, f), Xor16(t3, n);
    Xor16Exchange(s4, t4, g, o);
    Xor16Exchange(Xor16(s4, g), Xor16(t4, o), h, p);
  }

  lemma PolyMulAdds(x: byte, y: byte, z: byte)
    ensures PolyMul(x, Xor(y, z)) == Xor16(PolyMul(x, y), PolyMul(x, z))
  {
    hide Term, Sum8, Xor, Xor16;
    var a := x as bv16;
    TermAdds(y, z, 0x01, a);
    TermAdds(y, z, 0x02, a << 1);
    TermAdds(y, z, 0x04, a << 2);
    TermAdds(y, z, 0x08, a << 3);
    TermAdds(y, z, 0x10, a << 4);
    TermAdds(y, z, 0x20, a << 5);
    TermAdds(y, z, 0x40, a << 6);
    TermAdds(y, z, 0x80, a << 7);
    Sum8Adds(Term(y, 0x01, a), Term(y, 0x02, a << 1), Term(y, 0x04, a << 2), Term(y, 0x08, a << 3),
             Term(y, 0x10, a << 4), Term(y, 0x20, a << 5), Term(y, 0x40, a << 6), Term(y, 0x80, a << 7),
             Term(z, 0x01, a), Term(z, 0x02, a << 1), Term(z, 0x04, a << 2), Term(z, 0x08, a << 3),
             Term(z, 0x10, a << 4), Term(z, 0x20, a << 5), Term(z, 0x40, a << 6), Term(z, 0x80, a << 7));
  }

  /** Multiplication distributes over addition. */
  lemma GfMulAdds(x: byte, y: byte, z: byte)
    ensures GfMul(x, Xor(y, z)) == Xor(GfMul(x, y), GfMul(x, z))
  {
    hide PolyMod, PolyMul, Xor, Xor16;
    PolyMulAdds(x, y, z);
    PolyModAdds(PolyMul(x, y), PolyMul(x, z));
  }

  // ---- additive functions ----

  ghost predicate Additive(f: byte -> byte) {
    forall y: byte, z: byte :: f(Xor(y, z)) == Xor(f(y), f(z))
  }

  ghost predicate AgreeOnBits(f: byte -> byte, g: byte -> byte) {
    && f(0x00) == g(0x00) && f(0x01) == g(0x01) && f(0x02) == g(0x02) && f(0x04) == g(0x04) && f(0x08) == g(0x08)
    && f(0x10) == g(0x10) && f(0x20) == g(0x20) && f(0x40) == g(0x40) && f(0x80) == g(0x80)
  }

  lemma Coefficients(y: byte)
    ensures var a, b, c, d := y & 0x01, y & 0x02, y & 0x04, y & 0x08;
            var e, f, g, h := y & 0x10, y & 0x20, y & 0x40, y & 0x80;
            y == Xor(Xor(Xor(Xor(Xor(Xor(Xor(a, b), c), d), e), f), g), h)
  { }

  lemma Coefficient(y: byte)
    ensures y & 0x01 == 0 || y & 0x01 == 0x01
    ensures y & 0x02 == 0 || y & 0x02 == 0x02
    ensures y & 0x04 == 0 || y & 0x04 == 0x04
    ensures y & 0x08 == 0 || y & 0x08 == 0x08
    ensures y & 0x10 == 0 || y & 0x10 == 0x10
    ensures y & 0x20 == 0 || y & 0x20 == 0x20
    ensures y & 0x40 == 0 || y & 0x40 == 0x40
    ensures y & 0x80 == 0 || y & 0x80 == 0x80
  { }

  /** Two additive functions that agree on every single bit agree everywhere. */
  lemma AgreeEverywhere(f: byte -> byte, g: byte -> byte, y: byte)
    requires Additive(f) && Additive(g) && AgreeOnBits(f, g)
    ensures f(y) == g(y)
  {
    hide Xor;
    Coefficient(y);
    Coefficients(y);
    var s1 := Xor(y & 0x01, y & 0x02);
    var s2 := Xor(s1, y & 0x04);
    var s3 := Xor(s2, y & 0x08);
    var s4 := Xor(s3, y & 0x10);
    var s5 := Xor(s4, y & 0x20);
    var s6 := Xor(s5, y & 0x40);
    assert f(s1) == g(s1);
    assert f(s2) == g(s2);
    assert f(s3) == g(s3);
    assert f(s4) == g(s4);
    assert f(s5) == g(s5);
    assert f(s6) == g(s6);
  }

  // ---- and is associative ----

  lemma ZeroTimes(x: byte)
    ensures GfMul(x, 0) == 0 && XTime(0) == 0
  { }

  lemma TimesOne(x: byte)
    ensures GfMul(x, 1) == x
  { }

  lemma OneTimes(x: byte)
    ensures GfMul(1, x) == x
  { }

  lemma XTimeIsGfMul2(x: byte)
    ensures XTime(x) == GfMul(x, 2)
  { }

  lemma Times4(x: byte)
    ensures GfMul(x, 0x04) == XTime(XTime(x))
  { }

  lemma Times8(x: byte)
    ensures GfMul(x, 0x08) == XTime(XTime(XTime(x)))
  { }

  lemma Times16(x: byte)
    ensures GfMul(x, 0x10) == XTime(XTime(XTime(XTime(x))))
  { }

  lemma Times32(x: byte)
    ensures GfMul(x, 0x20) == XTime(XTime(XTime(XTime(XTime(x)))))
  { }

  lemma Times64(x: byte)
    ensures GfMul(x, 0x40) == XTime(XTime(XTime(XTime(XTime(XTime(x))))))
  { }

  lemma Times128(x: byte)
    ensures GfMul(x, 0x80) == XTime(XTime(XTime(XTime(XTime(XTime(XTime(x)))))))
  { }

  lemma Times27(x: byte)
    ensures GfMul(x, 0x1b) == XTime(XTime(XTime(XTime(XTime(XTime(XTime(XTime(x))))))))
  { }

  lemma BitsDoubled()
    ensures XTime(0x01) == 0x02 && XTime(0x02) == 0x04 && XTime(0x04) == 0x08 && XTime(0x08) == 0x10
    ensures XTime(0x10) == 0x20 && XTime(0x20) == 0x40 && XTime(0x40) == 0x80 && XTime(0x80) == 0x1b
  { }

  function TimesDoubled(x: byte): byte -> byte {
    (z: byte) => GfMul(x, XTime(z))
  }

  function DoubledTimes(x: byte): byte -> byte {
    (z: byte) => XTime(GfMul(x, z))
  }

  lemma DoublingsAdditive(x: byte)
    ensures Additive(TimesDoubled(x)) && Additive(DoubledTimes(x))
  {
    hide GfMul, XTime, Xor;
    forall y: byte, z: byte
      ensures TimesDoubled(x)(Xor(y, z)) == Xor(TimesDoubled(x)(y), TimesDoubled(x)(z))
      ensures DoubledTimes(x)(Xor(y, z)) == Xor(DoubledTimes(x)(y), DoubledTimes(x)(z))
    {
      XTimeLinear(y, z);
      GfMulAdds(x, XTime(y), XTime(z));
      GfMulAdds(x, y, z);
      XTimeLinear(GfMul(x, y), GfMul(x, z));
    }
  }

  lemma DoublingsAgreeOnBits(x: byte)
    ensures AgreeOnBits(TimesDoubled(x), DoubledTimes(x))
  {
    hide GfMul, XTime;
    BitsDoubled();
    ZeroTimes(x);
    TimesOne(x);
    XTimeIsGfMul2(x);
    Times4(x);
    Times8(x);
    Times16(x);
    Times32(x);
    Times64(x);
    Times128(x);
    Times27(x);
  }

  lemma TimesTwo(x: byte, y: byte)
    ensures GfMul(x, XTime(y)) == XTime(GfMul(x, y))
  {
    hide GfMul, XTime, Additive, AgreeOnBits;
    DoublingsAdditive(x);
    DoublingsAgreeOnBits(x);
    AgreeEverywhere(TimesDoubled(x), DoubledTimes(x), y);
  }

  /** Associativity with a doubled third factor. */
  lemma AssociatesDoubled(x: byte, y: byte, z: byte)
    requires GfMul(GfMul(x, y), z) == GfMul(x, GfMul(y, z))
    ensures GfMul(GfMul(x, y), XTime(z)) == GfMul(x, GfMul(y, XTime(z)))
  {
    hide GfMul, XTime;
    TimesTwo(GfMul(x, y), z);
    TimesTwo(y, z);
    TimesTwo(x, GfMul(y, z));
  }

  function InTurn(x: byte, y: byte): byte -> byte {
    (z: byte) => GfMul(GfMul(x, y), z)
  }

  function Nested(x: byte, y: byte): byte -> byte {
    (z: byte) => GfMul(x, GfMul(y, z))
  }

  lemma InTurnAdds(x: byte, y: byte, v: byte, w: byte)
    ensures InTurn(x, y)(Xor(v, w)) == Xor(InTurn(x, y)(v), InTurn(x, y)(w))
  {
    hide GfMul, Xor;
    GfMulAdds(GfMul(x, y), v, w);
  }

  lemma NestedAdds(x: byte, y: byte, v: byte, w: byte)
    ensures Nested(x, y)(Xor(v, w)) == Xor(Nested(x, y)(v), Nested(x, y)(w))
  {
    hide GfMul, Xor;
    GfMulAdds(y, v, w);
    GfMulAdds(x, GfMul(y, v), GfMul(y, w));
  }

  lemma ProductsAdditive(x: byte, y: byte)
    ensures Additive(InTurn(x, y)) && Additive(Nested(x, y))
  {
    hide GfMul, Xor, InTurn, Nested;
    forall v: byte, w: byte
      ensures InTurn(x, y)(Xor(v, w)) == Xor(InTurn(x, y)(v), InTurn(x, y)(w))
      ensures Nested(x, y)(Xor(v, w)) == Xor(Nested(x, y)(v), Nested(x, y)(w))
    {
      InTurnAdds(x, y, v, w);
      NestedAdds(x, y, v, w);
    }
  }

  lemma ProductsAgreeOnBits(x: byte, y: byte)
    ensures AgreeOnBits(InTurn(x, y), Nested(x, y))
  {
    hide GfMul, XTime;
    ZeroTimes(x);
    ZeroTimes(y);
    ZeroTimes(GfMul(x, y));
    TimesOne(y);
    TimesOne(GfMul(x, y));
    BitsDoubled();
    AssociatesDoubled(x, y, 0x01);
    AssociatesDoubled(x, y, 0x02);
    AssociatesDoubled(x, y, 0x04);
    AssociatesDoubled(x, y, 0x08);
    AssociatesDoubled(x, y, 0x10);
    AssociatesDoubled(x, y, 0x20);
    AssociatesDoubled(x, y, 0x40);
  }

  lemma GfMulAssociates(x: byte, y: byte, z: byte)
    ensures GfMul(GfMul(x, y), z) == GfMul(x, GfMul(y, z))
  {
    hide GfMul, Additive, AgreeOnBits;
    ProductsAdditive(x, y);
    ProductsAgreeOnBits(x, y);
    AgreeEverywhere(InTurn(x, y), Nested(x, y), z);
  }

  /** A byte with a left inverse has no other right inverse. */
  lemma InverseUnique(x: byte, w: byte, y: byte)
    requires GfMul(w, x) == 1 && GfMul(x, y) == 1
    ensures y == w
  {
    hide GfMul;
    GfMulAssociates(w, x, y);
    OneTimes(y);
    TimesOne(w);
  }

  // ---- Multiply ----

  function Multiply(x: byte, y: byte): byte {
    Sum5(TimesBit(y & 1, x),
         TimesBit((y >> 1) & 1, XTime(x)),
         TimesBit((y >> 2) & 1, XTime(XTime(x))),
         TimesBit((y >> 3) & 1, XTime(XTime(XTime(x)))),
         TimesBit((y >> 4) & 1, XTime(XTime(XTime(XTime(x))))))
  }

  function Sum5(a: byte, b: byte, c: byte, d: byte, e: byte): byte {
    Xor(Xor(Xor(Xor(a, b), c), d), e)
  }

  function TimesBit(b: byte, x: byte): byte {
    b * x
  }

  /** The value, if `y` has the bit. */
  function Choose(y: byte, bit: byte, v: byte): byte {
    if y & bit != 0 then v else 0
  }

  lemma TimesZeroOne(x: byte)
    ensures TimesBit(0, x) == 0 && TimesBit(1, x) == x
  { }

  lemma BitAt(y: byte)
    ensures y & 1 == if y & 0x01 != 0 then 1 else 0
    ensures (y >> 1) & 1 == if y & 0x02 != 0 then 1 else 0
    ensures (y >> 2) & 1 == if y & 0x04 != 0 then 1 else 0
    ensures (y >> 3) & 1 == if y & 0x08 != 0 then 1 else 0
    ensures (y >> 4) & 1 == if y & 0x10 != 0 then 1 else 0
  { }

  /** Multiply with its products by a bit read as choices. */
  lemma MultiplyByBits(x: byte, y: byte)
    ensures var x1 := XTime(x); var x2 := XTime(x1); var x3 := XTime(x2); var x4 := XTime(x3);
            Multiply(x, y) == Sum5(Choose(y, 0x01, x), Choose(y, 0x02, x1), Choose(y, 0x04, x2),
                                   Choose(y, 0x08, x3), Choose(y, 0x10, x4))
  {
    hide TimesBit, XTime, Sum5;
    var x1 := XTime(x);
    var x2 := XTime(x1);
    var x3 := XTime(x2);
    BitAt(y);
    TimesZeroOne(x);
    TimesZeroOne(x1);
    TimesZeroOne(x2);
    TimesZeroOne(x3);
    TimesZeroOne(XTime(x3));
  }

  /** The product by one coefficient of `y`. */
  lemma TimesCoefficient(x: byte, y: byte)
    ensures var x1 := XTime(x); var x2 := XTime(x1); var x3 := XTime(x2); var x4 := XTime(x3);
            && GfMul(x, y & 0x01) == Choose(y, 0x01, x) && GfMul(x, y & 0x02) == Choose(y, 0x02, x1)
            && GfMul(x, y & 0x04) == Choose(y, 0x04, x2) && GfMul(x, y & 0x08) == Choose(y, 0x08, x3)
            && GfMul(x, y & 0x10) == Choose(y, 0x10, x4)
  {
    hide GfMul, XTime;
    Coefficient(y);
    ZeroTimes(x);
    TimesOne(x);
    XTimeIsGfMul2(x);
    Times4(x);
    Times8(x);
    Times16(x);
  }

  lemma LowCoefficients(y: byte)
    requires y < 32
    ensures y == Xor(Xor(Xor(Xor(y & 0x01, y & 0x02), y & 0x04), y & 0x08), y & 0x10)
  { }

  lemma MultiplyBelow32(x: byte, y: byte)
    requires y < 32
    ensures Multiply(x, y) == GfMul(x, y)
  {
    hide Multiply, GfMul, XTime, Choose, Xor;
    LowCoefficients(y);
    var s1 := Xor(y & 0x01, y & 0x02);
    var s2 := Xor(s1, y & 0x04);
    GfMulAdds(x, y & 0x01, y & 0x02);
    GfMulAdds(x, s1, y & 0x04);
    GfMulAdds(x, s2, y & 0x08);
    GfMulAdds(x, Xor(s2, y & 0x08), y & 0x10);
    TimesCoefficient(x, y);
    MultiplyByBits(x, y);
  }

  /** Multiply looks at five bits of its second argument: it is the field product exactly below 32. */
  lemma MultiplyIsGfMul(y: byte)
    ensures y < 32 <==> forall x :: Multiply(x, y) == GfMul(x, y)
  {
    if y < 32 {
      hide Multiply, GfMul;
      forall x ensures Multiply(x, y) == GfMul(x, y) {
        MultiplyBelow32(x, y);
      }
    } else {
      OneTimes(y);
      assert Multiply(1, y) != GfMul(1, y) by {
        hide GfMul;
      }
    }
  }
}
