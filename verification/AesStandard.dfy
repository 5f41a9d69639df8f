/**
 * The cipher of crypto/aes.c against FIPS 197: its tables, its rows and columns and its rounds
 * are the ones the standard gives.
 */
module AesField {
  import opened ByteField

  // ---- Multiplication in the field, section 4.2 of FIPS 197 ---------------------------------

  predicate Has(y: bv8, bit: bv8) { y & bit == bit }

  function If(b: bool, x: bv8): bv8 { if b then x else 0 }

  function Times16(x: bv8): bv8 { XTime(Times8(x)) }

  function Times32(x: bv8): bv8 { XTime(Times16(x)) }

  function Times64(x: bv8): bv8 { XTime(Times32(x)) }

  function Times128(x: bv8): bv8 { XTime(Times64(x)) }

  function Eight(t0: bv8, t1: bv8, t2: bv8, t3: bv8, t4: bv8, t5: bv8, t6: bv8, t7: bv8): bv8 {
    Xor(Xor(Xor(t0, t1), Xor(t2, t3)), Xor(Xor(t4, t5), Xor(t6, t7)))
  }

  /** The product of two bytes: the multiples of the first by the powers of x that the bits of the second name. */
  function Product(x: bv8, y: bv8): bv8 {
    Selected(y, x, XTime(x), Times4(x), Times8(x), Times16(x), Times32(x), Times64(x), Times128(x))
  }

  function Selected(y: bv8, t0: bv8, t1: bv8, t2: bv8, t3: bv8, t4: bv8, t5: bv8, t6: bv8, t7: bv8): bv8 {
    Eight(If(Has(y, 1), t0), If(Has(y, 2), t1), If(Has(y, 4), t2), If(Has(y, 8), t3),
          If(Has(y, 16), t4), If(Has(y, 32), t5), If(Has(y, 64), t6), If(Has(y, 128), t7))
  }

  /** The code's multiplication is that product for every factor it is used with, and for all below 32. */
  lemma MultiplyIsProduct(x: bv8, y: bv8)
    requires y < 32
    ensures Multiply(x, y) == Product(x, y)
  {
    hide XTime, Times4, Times8, Times32, Times64, Times128, Has, If, Pick, Xor;
    var p0, p1, p2, p3, p4 := Pick(y, x), Pick(y >> 1, XTime(x)), Pick(y >> 2, Times4(x)), Pick(y >> 3, Times8(x)), Pick(y >> 4, XTime(Times8(x)));
    PicksAre(y, x, XTime(x), Times4(x), Times8(x), Times16(x));
    HighBitsGone(y, Times32(x), Times64(x), Times128(x));
    XorRegroups(Xor(p0, p1), p2, p3);
    XorZero(p4);
    XorZero(0);
  }

  lemma PicksAre(y: bv8, t0: bv8, t1: bv8, t2: bv8, t3: bv8, t4: bv8)
    ensures Pick(y, t0) == If(Has(y, 1), t0) && Pick(y >> 1, t1) == If(Has(y, 2), t1) && Pick(y >> 2, t2) == If(Has(y, 4), t2)
    ensures Pick(y >> 3, t3) == If(Has(y, 8), t3) && Pick(y >> 4, t4) == If(Has(y, 16), t4)
  {
    assert (y >> 1) & 1 == 1 <==> y & 2 == 2;
    assert (y >> 2) & 1 == 1 <==> y & 4 == 4;
    assert (y >> 3) & 1 == 1 <==> y & 8 == 8;
    assert (y >> 4) & 1 == 1 <==> y & 16 == 16;
  }

  lemma HighBitsGone(y: bv8, t5: bv8, t6: bv8, t7: bv8)
    requires y < 32
    ensures If(Has(y, 32), t5) == 0 && If(Has(y, 64), t6) == 0 && If(Has(y, 128), t7) == 0
  {
    assert y & 32 != 32 && y & 64 != 64 && y & 128 != 128;
  }

  lemma XorSelf(x: bv8)
    ensures Xor(x, x) == 0
  {
  }

  lemma IfAdds(b: bool, c: bool, x: bv8)
    ensures If(b != c, x) == Xor(If(b, x), If(c, x))
  {
    hide Xor;
    XorZero(x);
    XorZero(0);
    XorSelf(x);
  }

  lemma EightAdds(a0: bv8, a1: bv8, a2: bv8, a3: bv8, a4: bv8, a5: bv8, a6: bv8, a7: bv8,
                  b0: bv8, b1: bv8, b2: bv8, b3: bv8, b4: bv8, b5: bv8, b6: bv8, b7: bv8)
    ensures Eight(Xor(a0, b0), Xor(a1, b1), Xor(a2, b2), Xor(a3, b3), Xor(a4, b4), Xor(a5, b5), Xor(a6, b6), Xor(a7, b7)) ==
            Xor(Eight(a0, a1, a2, a3, a4, a5, a6, a7), Eight(b0, b1, b2, b3, b4, b5, b6, b7))
  {
    hide Xor;
    XorPairs(a0, a1, b0, b1);
    XorPairs(a2, a3, b2, b3);
    XorPairs(a4, a5, b4, b5);
    XorPairs(a6, a7, b6, b7);
    XorPairs(Xor(a0, a1), Xor(a2, a3), Xor(b0, b1), Xor(b2, b3));
    XorPairs(Xor(a4, a5), Xor(a6, a7), Xor(b4, b5), Xor(b6, b7));
    XorPairs(Xor(Xor(a0, a1), Xor(a2, a3)), Xor(Xor(a4, a5), Xor(a6, a7)), Xor(Xor(b0, b1), Xor(b2, b3)), Xor(Xor(b4, b5), Xor(b6, b7)));
  }

  predicate BitAdds(y: bv8, z: bv8, bit: bv8) { Has(Xor(y, z), bit) == (Has(y, bit) != Has(z, bit)) }

  lemma LowBitsAdd(y: bv8, z: bv8)
    ensures BitAdds(y, z, 1) && BitAdds(y, z, 2) && BitAdds(y, z, 4) && BitAdds(y, z, 8)
  {
  }

  lemma HighBitsAdd(y: bv8, z: bv8)
    ensures BitAdds(y, z, 16) && BitAdds(y, z, 32) && BitAdds(y, z, 64) && BitAdds(y, z, 128)
  {
  }

  lemma IfBitAdds(y: bv8, z: bv8, bit: bv8, t: bv8)
    requires BitAdds(y, z, bit)
    ensures If(Has(Xor(y, z), bit), t) == Xor(If(Has(y, bit), t), If(Has(z, bit), t))
  {
    hide Has, Xor;
    IfAdds(Has(y, bit), Has(z, bit), t);
  }

  lemma SelectedAdds(y: bv8, z: bv8, t0: bv8, t1: bv8, t2: bv8, t3: bv8, t4: bv8, t5: bv8, t6: bv8, t7: bv8)
    ensures Selected(Xor(y, z), t0, t1, t2, t3, t4, t5, t6, t7) ==
            Xor(Selected(y, t0, t1, t2, t3, t4, t5, t6, t7), Selected(z, t0, t1, t2, t3, t4, t5, t6, t7))
  {
    hide BitAdds, Has, Xor, If, Eight;
    LowBitsAdd(y, z);
    HighBitsAdd(y, z);
    IfBitAdds(y, z, 1, t0);
    IfBitAdds(y, z, 2, t1);
    IfBitAdds(y, z, 4, t2);
    IfBitAdds(y, z, 8, t3);
    IfBitAdds(y, z, 16, t4);
    IfBitAdds(y, z, 32, t5);
    IfBitAdds(y, z, 64, t6);
    IfBitAdds(y, z, 128, t7);
    EightAdds(If(Has(y, 1), t0), If(Has(y, 2), t1), If(Has(y, 4), t2), If(Has(y, 8), t3), If(Has(y, 16), t4), If(Has(y, 32), t5), If(Has(y, 64), t6), If(Has(y, 128), t7),
              If(Has(z, 1), t0), If(Has(z, 2), t1), If(Has(z, 4), t2), If(Has(z, 8), t3), If(Has(z, 16), t4), If(Has(z, 32), t5), If(Has(z, 64), t6), If(Has(z, 128), t7));
  }

  lemma ProductAdds(x: bv8, y: bv8, z: bv8)
    ensures Product(x, Xor(y, z)) == Xor(Product(x, y), Product(x, z))
  {
    hide Selected, Xor, XTime, Times4, Times8, Times16, Times32, Times64, Times128;
    SelectedAdds(y, z, x, XTime(x), Times4(x), Times8(x), Times16(x), Times32(x), Times64(x), Times128(x));
  }

  // ---- It commutes with doubling, and so associates ------------------------------------------

  lemma XTimeEight(t0: bv8, t1: bv8, t2: bv8, t3: bv8, t4: bv8, t5: bv8, t6: bv8, t7: bv8)
    ensures XTime(Eight(t0, t1, t2, t3, t4, t5, t6, t7)) ==
            Eight(XTime(t0), XTime(t1), XTime(t2), XTime(t3), XTime(t4), XTime(t5), XTime(t6), XTime(t7))
  {
    hide Xor, XTime;
    XTimeAdds(t0, t1);
    XTimeAdds(t2, t3);
    XTimeAdds(t4, t5);
    XTimeAdds(t6, t7);
    XTimeAdds(Xor(t0, t1), Xor(t2, t3));
    XTimeAdds(Xor(t4, t5), Xor(t6, t7));
    XTimeAdds(Xor(Xor(t0, t1), Xor(t2, t3)), Xor(Xor(t4, t5), Xor(t6, t7)));
  }

  lemma XTimeIf(b: bool, x: bv8)
    ensures XTime(If(b, x)) == If(b, XTime(x))
  {
  }

  /** The eighth power of x is 0x1b. */
  lemma EighthPower(x: bv8)
    ensures XTime(Times128(x)) == Xor(Xor(x, XTime(x)), Xor(Times8(x), Times16(x)))
  {
  }

  lemma DoubledBits(y: bv8)
    ensures Has(XTime(y), 1) == Has(y, 128) && Has(XTime(y), 4) == Has(y, 2) && Has(XTime(y), 32) == Has(y, 16)
    ensures Has(XTime(y), 64) == Has(y, 32) && Has(XTime(y), 128) == Has(y, 64)
    ensures Has(XTime(y), 2) == (Has(y, 1) != Has(y, 128)) && Has(XTime(y), 8) == (Has(y, 4) != Has(y, 128))
    ensures Has(XTime(y), 16) == (Has(y, 8) != Has(y, 128))
  {
  }

  lemma IfSum(b: bool, p: bv8, q: bv8, r: bv8, s: bv8)
    ensures If(b, Xor(Xor(p, q), Xor(r, s))) == Xor(Xor(If(b, p), If(b, q)), Xor(If(b, r), If(b, s)))
  {
  }

  lemma Regrouped(v0: bv8, v1: bv8, v3: bv8, v4: bv8, u1: bv8, u2: bv8, u3: bv8, u4: bv8, u5: bv8, u6: bv8, u7: bv8)
    ensures Eight(v0, Xor(u1, v1), u2, Xor(u3, v3), Xor(u4, v4), u5, u6, u7) ==
            Eight(u1, u2, u3, u4, u5, u6, u7, Xor(Xor(v0, v1), Xor(v3, v4)))
  {
    hide Xor, Eight;
    XorZero(v0);
    XorZero(u2);
    XorZero(u5);
    XorZero(u6);
    XorZero(u7);
    EightAdds(0, u1, u2, u3, u4, u5, u6, u7, v0, v1, 0, v3, v4, 0, 0, 0);
    Turned(u1, u2, u3, u4, u5, u6, u7, Xor(Xor(v0, v1), Xor(v3, v4)));
    FourOfEight(v0, v1, v3, v4);
  }

  lemma FourOfEight(v0: bv8, v1: bv8, v3: bv8, v4: bv8)
    ensures Eight(v0, v1, 0, v3, v4, 0, 0, 0) == Xor(Xor(v0, v1), Xor(v3, v4))
  {
    hide Xor;
    XorZero(v3);
    XorZero(v4);
    XorZero(0);
    XorRegroups(Xor(v0, v1), v3, v4);
  }

  /** A sum of eight, its last term apart. */
  lemma Turned(u1: bv8, u2: bv8, u3: bv8, u4: bv8, u5: bv8, u6: bv8, u7: bv8, w: bv8)
    ensures Eight(u1, u2, u3, u4, u5, u6, u7, w) == Xor(Eight(0, u1, u2, u3, u4, u5, u6, u7), w)
  {
    hide Xor, Eight;
    Flat(u1, u2, u3, u4, u5, u6, u7, w);
    Flat(0, u1, u2, u3, u4, u5, u6, u7);
    XorZero(Xor(u1, Xor(u2, Xor(u3, Xor(u4, Xor(u5, Xor(u6, u7)))))));
    XorRegroups(u1, Xor(u2, Xor(u3, Xor(u4, Xor(u5, Xor(u6, u7))))), w);
    XorRegroups(u2, Xor(u3, Xor(u4, Xor(u5, Xor(u6, u7)))), w);
    XorRegroups(u3, Xor(u4, Xor(u5, Xor(u6, u7))), w);
    XorRegroups(u4, Xor(u5, Xor(u6, u7)), w);
    XorRegroups(u5, Xor(u6, u7), w);
    XorRegroups(u6, u7, w);
  }

  lemma Flat(t0: bv8, t1: bv8, t2: bv8, t3: bv8, t4: bv8, t5: bv8, t6: bv8, t7: bv8)
    ensures Eight(t0, t1, t2, t3, t4, t5, t6, t7) == Xor(t0, Xor(t1, Xor(t2, Xor(t3, Xor(t4, Xor(t5, Xor(t6, t7)))))))
  {
    hide Xor;
    var b := Xor(t4, Xor(t5, Xor(t6, t7)));
    XorRegroups(t4, t5, Xor(t6, t7));
    XorRegroups(Xor(t0, t1), Xor(t2, t3), b);
    XorRegroups(t0, t1, Xor(Xor(t2, t3), b));
    XorRegroups(t2, t3, b);
  }

  lemma DoubledSum(b0: bool, b1: bool, b2: bool, b3: bool, b4: bool, b5: bool, b6: bool, b7: bool,
                   t0: bv8, t1: bv8, t2: bv8, t3: bv8, t4: bv8, t5: bv8, t6: bv8, t7: bv8)
    ensures Eight(If(b7, t0), If(b0 != b7, t1), If(b1, t2), If(b2 != b7, t3), If(b3 != b7, t4), If(b4, t5), If(b5, t6), If(b6, t7)) ==
            Eight(If(b0, t1), If(b1, t2), If(b2, t3), If(b3, t4), If(b4, t5), If(b5, t6), If(b6, t7), If(b7, Xor(Xor(t0, t1), Xor(t3, t4))))
  {
    hide Xor, If, Eight;
    IfAdds(b0, b7, t1);
    IfAdds(b2, b7, t3);
    IfAdds(b3, b7, t4);
    IfSum(b7, t0, t1, t3, t4);
    Regrouped(If(b7, t0), If(b7, t1), If(b7, t3), If(b7, t4), If(b0, t1), If(b1, t2), If(b2, t3), If(b3, t4), If(b4, t5), If(b5, t6), If(b6, t7));
  }

  lemma ProductDoubles(x: bv8, y: bv8)
    ensures Product(x, XTime(y)) == XTime(Product(x, y))
  {
    DoubledBits(y);
    EighthPower(x);
    Powers(x);
    hide Xor, XTime, Times4, Times8, Times16, Times32, Times64, Times128, Has, If, Eight;
    XTimeIf(Has(y, 1), x);
    XTimeIf(Has(y, 2), XTime(x));
    XTimeIf(Has(y, 4), Times4(x));
    XTimeIf(Has(y, 8), Times8(x));
    XTimeIf(Has(y, 16), Times16(x));
    XTimeIf(Has(y, 32), Times32(x));
    XTimeIf(Has(y, 64), Times64(x));
    XTimeIf(Has(y, 128), Times128(x));
    XTimeEight(If(Has(y, 1), x), If(Has(y, 2), XTime(x)), If(Has(y, 4), Times4(x)), If(Has(y, 8), Times8(x)), If(Has(y, 16), Times16(x)), If(Has(y, 32), Times32(x)), If(Has(y, 64), Times64(x)), If(Has(y, 128), Times128(x)));
    DoubledSum(Has(y, 1), Has(y, 2), Has(y, 4), Has(y, 8), Has(y, 16), Has(y, 32), Has(y, 64), Has(y, 128),
               x, XTime(x), Times4(x), Times8(x), Times16(x), Times32(x), Times64(x), Times128(x));
  }

  lemma Powers(x: bv8)
    ensures Times4(x) == XTime(XTime(x)) && Times8(x) == XTime(Times4(x)) && Times16(x) == XTime(Times8(x))
    ensures Times32(x) == XTime(Times16(x)) && Times64(x) == XTime(Times32(x)) && Times128(x) == XTime(Times64(x))
  {
  }

  lemma ProductOfIf(v: bv8, b: bool, x: bv8)
    ensures Product(v, If(b, x)) == If(b, Product(v, x))
  {
    if !b {
      ProductOfZero(v);
    }
  }

  lemma ProductOfZero(v: bv8)
    ensures Product(v, 0) == 0
  {
    hide XTime, Times4, Times8, Times16, Times32, Times64, Times128;
  }

  lemma ProductOfEight(v: bv8, t0: bv8, t1: bv8, t2: bv8, t3: bv8, t4: bv8, t5: bv8, t6: bv8, t7: bv8)
    ensures Product(v, Eight(t0, t1, t2, t3, t4, t5, t6, t7)) ==
            Eight(Product(v, t0), Product(v, t1), Product(v, t2), Product(v, t3),
                  Product(v, t4), Product(v, t5), Product(v, t6), Product(v, t7))
  {
    hide Xor, Product;
    ProductAdds(v, t0, t1);
    ProductAdds(v, t2, t3);
    ProductAdds(v, t4, t5);
    ProductAdds(v, t6, t7);
    ProductAdds(v, Xor(t0, t1), Xor(t2, t3));
    ProductAdds(v, Xor(t4, t5), Xor(t6, t7));
    ProductAdds(v, Xor(Xor(t0, t1), Xor(t2, t3)), Xor(Xor(t4, t5), Xor(t6, t7)));
  }

  lemma ProductOfPowers(v: bv8, x: bv8)
    ensures Product(v, XTime(x)) == XTime(Product(v, x))
    ensures Product(v, Times4(x)) == Times4(Product(v, x))
    ensures Product(v, Times8(x)) == Times8(Product(v, x))
    ensures Product(v, Times16(x)) == Times16(Product(v, x))
    ensures Product(v, Times32(x)) == Times32(Product(v, x))
    ensures Product(v, Times64(x)) == Times64(Product(v, x))
    ensures Product(v, Times128(x)) == Times128(Product(v, x))
  {
    Powers(x);
    Powers(Product(v, x));
    hide Product, XTime, Times4, Times8, Times16, Times32, Times64, Times128;
    ProductDoubles(v, x);
    ProductDoubles(v, XTime(x));
    ProductDoubles(v, Times4(x));
    ProductDoubles(v, Times8(x));
    ProductDoubles(v, Times16(x));
    ProductDoubles(v, Times32(x));
    ProductDoubles(v, Times64(x));
  }

  lemma ProductUnfolds(x: bv8, y: bv8)
    ensures Product(x, y) == Eight(If(Has(y, 1), x), If(Has(y, 2), XTime(x)), If(Has(y, 4), Times4(x)), If(Has(y, 8), Times8(x)), If(Has(y, 16), Times16(x)), If(Has(y, 32), Times32(x)), If(Has(y, 64), Times64(x)), If(Has(y, 128), Times128(x)))
  {
  }

  lemma Associates(v: bv8, x: bv8, y: bv8)
    ensures Product(v, Product(x, y)) == Product(Product(v, x), y)
  {
    hide Product, Has, If, Eight, XTime, Times4, Times8, Times16, Times32, Times64, Times128;
    ProductUnfolds(x, y);
    ProductUnfolds(Product(v, x), y);
    ProductOfPowers(v, x);
    ProductOfIf(v, Has(y, 1), x);
    ProductOfIf(v, Has(y, 2), XTime(x));
    ProductOfIf(v, Has(y, 4), Times4(x));
    ProductOfIf(v, Has(y, 8), Times8(x));
    ProductOfIf(v, Has(y, 16), Times16(x));
    ProductOfIf(v, Has(y, 32), Times32(x));
    ProductOfIf(v, Has(y, 64), Times64(x));
    ProductOfIf(v, Has(y, 128), Times128(x));
    ProductOfEight(v, If(Has(y, 1), x), If(Has(y, 2), XTime(x)), If(Has(y, 4), Times4(x)), If(Has(y, 8), Times8(x)), If(Has(y, 16), Times16(x)), If(Has(y, 32), Times32(x)), If(Has(y, 64), Times64(x)), If(Has(y, 128), Times128(x)));
  }

  lemma TimesOne(x: bv8)
    ensures Product(x, 1) == x && Product(1, x) == x
  {
    OneTimes(x);
    hide XTime, Times4, Times8, Times16, Times32, Times64, Times128, Xor;
    XorZero(x);
    XorZero(0);
    assert Has(1, 1) && !Has(1, 2) && !Has(1, 4) && !Has(1, 8) && !Has(1, 16) && !Has(1, 32) && !Has(1, 64) && !Has(1, 128);
  }

  lemma OneTimes(x: bv8)
    ensures Product(1, x) == x
  {
    hide XTime, Times4, Times8, Times16, Times32, Times64, Times128, Xor, If, Has;
    PowersOfOne();
    LowHalf(x);
    HighHalf(x);
    Halves(x);
  }

  lemma PowersOfOne()
    ensures XTime(1) == 2 && Times4(1) == 4 && Times8(1) == 8 && Times16(1) == 16
    ensures Times32(1) == 32 && Times64(1) == 64 && Times128(1) == 128
  {
  }

  lemma LowHalf(x: bv8)
    ensures Xor(Xor(If(Has(x, 1), 1), If(Has(x, 2), 2)), Xor(If(Has(x, 4), 4), If(Has(x, 8), 8))) == x & 0x0f
  {
  }

  lemma HighHalf(x: bv8)
    ensures Xor(Xor(If(Has(x, 16), 16), If(Has(x, 32), 32)), Xor(If(Has(x, 64), 64), If(Has(x, 128), 128))) == x & 0xf0
  {
  }

  lemma Halves(x: bv8)
    ensures Xor(x & 0x0f, x & 0xf0) == x
  {
  }

  /** A byte with an inverse on one side has at most one on the other. */
  lemma OneInverse(u: bv8, x: bv8, y: bv8)
    requires Product(u, x) == 1 && Product(x, y) == 1
    ensures y == u
  {
    hide Product;
    Associates(u, x, y);
    TimesOne(u);
    TimesOne(y);
  }

  // ---- The affine map, section 5.1.1 -------------------------------------------------------------

  /** Each bit with the ones four to seven places on, around, and 0x63 added. */
  function Affine(b: bv8): bv8 {
    b ^ b.RotateLeft(1) ^ b.RotateLeft(2) ^ b.RotateLeft(3) ^ b.RotateLeft(4) ^ 0x63
  }

  ghost predicate Inverses(x: bv8, y: bv8) { if x == 0 then y == 0 else Product(x, y) == 1 }

  /** The product in one expression, to reckon with numbers. */
  function Reckoned(x: bv8, y: bv8): bv8 {
    var x2 := (x << 1) ^ (if x >= 128 then 0x1b else 0);
    var x4 := (x2 << 1) ^ (if x2 >= 128 then 0x1b else 0);
    var x8 := (x4 << 1) ^ (if x4 >= 128 then 0x1b else 0);
    var x16 := (x8 << 1) ^ (if x8 >= 128 then 0x1b else 0);
    var x32 := (x16 << 1) ^ (if x16 >= 128 then 0x1b else 0);
    var x64 := (x32 << 1) ^ (if x32 >= 128 then 0x1b else 0);
    var x128 := (x64 << 1) ^ (if x64 >= 128 then 0x1b else 0);
    Chosen(y, x, x2, x4, x8, x16, x32, x64, x128)
  }

  function Chosen(y: bv8, t0: bv8, t1: bv8, t2: bv8, t3: bv8, t4: bv8, t5: bv8, t6: bv8, t7: bv8): bv8 {
    Eight(If(y & 1 == 1, t0), If(y & 2 == 2, t1), If(y & 4 == 4, t2), If(y & 8 == 8, t3),
          If(y & 16 == 16, t4), If(y & 32 == 32, t5), If(y & 64 == 64, t6), If(y & 128 == 128, t7))
  }

  lemma ChosenIs(y: bv8, t0: bv8, t1: bv8, t2: bv8, t3: bv8, t4: bv8, t5: bv8, t6: bv8, t7: bv8)
    ensures Chosen(y, t0, t1, t2, t3, t4, t5, t6, t7) == Selected(y, t0, t1, t2, t3, t4, t5, t6, t7)
  {
    hide Eight, If;
  }

  lemma DoubleIs(x: bv8)
    ensures XTime(x) == (x << 1) ^ (if x >= 128 then 0x1b else 0)
  {
  }

  lemma ReckonedIsProduct(x: bv8, y: bv8)
    ensures Reckoned(x, y) == Product(x, y)
  {
    Powers(x);
    hide XTime, Times4, Times8, Times16, Times32, Times64, Times128, Selected, Chosen;
    ChosenIs(y, x, XTime(x), Times4(x), Times8(x), Times16(x), Times32(x), Times64(x), Times128(x));
    DoubleIs(x);
    DoubleIs(XTime(x));
    DoubleIs(Times4(x));
    DoubleIs(Times8(x));
    DoubleIs(Times16(x));
    DoubleIs(Times32(x));
    DoubleIs(Times64(x));
  }

  /** An entry of the substitution table, with the inverse it comes from. */
  ghost predicate IsEntry(x: int, entry: int, y: bv8) {
    && 0 <= x < 256 && 0 <= entry < 256 && entry as bv8 == Affine(y)
    && (if x == 0 then y == 0 else Reckoned(x as bv8, y) == 1)
  }
}

/** Every entry of the table. */
module AesEntries {
  import opened SubstitutionTables
  import opened AesField

  lemma Low0()
    ensures IsEntry(0, 0x63, 0x00) && IsEntry(1, 0x7c, 0x01) && IsEntry(2, 0x77, 0x8d) && IsEntry(3, 0x7b, 0xf6)
    ensures IsEntry(4, 0xf2, 0xcb) && IsEntry(5, 0x6b, 0x52) && IsEntry(6, 0x6f, 0x7b) && IsEntry(7, 0xc5, 0xd1)
  {
  }

  lemma High0()
    ensures IsEntry(8, 0x30, 0xe8) && IsEntry(9, 0x01, 0x4f) && IsEntry(10, 0x67, 0x29) && IsEntry(11, 0x2b, 0xc0)
    ensures IsEntry(12, 0xfe, 0xb0) && IsEntry(13, 0xd7, 0xe1) && IsEntry(14, 0xab, 0xe5) && IsEntry(15, 0x76, 0xc7)
  {
  }

  lemma Entries0(c: int) returns (y: bv8)
    requires 0 <= c < 16
    ensures IsEntry(0 + c, S0(c), y)
  {
    hide IsEntry;
    Low0();
    High0();
    match c
    case 0 => y := 0x00; case 1 => y := 0x01; case 2 => y := 0x8d; case 3 => y := 0xf6;
    case 4 => y := 0xcb; case 5 => y := 0x52; case 6 => y := 0x7b; case 7 => y := 0xd1;
    case 8 => y := 0xe8; case 9 => y := 0x4f; case 10 => y := 0x29; case 11 => y := 0xc0;
    case 12 => y := 0xb0; case 13 => y := 0xe1; case 14 => y := 0xe5; case _ => y := 0xc7;
  }

  lemma Low1()
    ensures IsEntry(16, 0xca, 0x74) && IsEntry(17, 0x82, 0xb4) && IsEntry(18, 0xc9, 0xaa) && IsEntry(19, 0x7d, 0x4b)
    ensures IsEntry(20, 0xfa, 0x99) && IsEntry(21, 0x59, 0x2b) && IsEntry(22, 0x47, 0x60) && IsEntry(23, 0xf0, 0x5f)
  {
  }

  lemma High1()
    ensures IsEntry(24, 0xad, 0x58) && IsEntry(25, 0xd4, 0x3f) && IsEntry(26, 0xa2, 0xfd) && IsEntry(27, 0xaf, 0xcc)
    ensures IsEntry(28, 0x9c, 0xff) && IsEntry(29, 0xa4, 0x40) && IsEntry(30, 0x72, 0xee) && IsEntry(31, 0xc0, 0xb2)
  {
  }

  lemma Entries1(c: int) returns (y: bv8)
    requires 0 <= c < 16
    ensures IsEntry(16 + c, S1(c), y)
  {
    hide IsEntry;
    Low1();
    High1();
    match c
    case 0 => y := 0x74; case 1 => y := 0xb4; case 2 => y := 0xaa; case 3 => y := 0x4b;
    case 4 => y := 0x99; case 5 => y := 0x2b; case 6 => y := 0x60; case 7 => y := 0x5f;
    case 8 => y := 0x58; case 9 => y := 0x3f; case 10 => y := 0xfd; case 11 => y := 0xcc;
    case 12 => y := 0xff; case 13 => y := 0x40; case 14 => y := 0xee; case _ => y := 0xb2;
  }

  lemma Low2()
    ensures IsEntry(32, 0xb7, 0x3a) && IsEntry(33, 0xfd, 0x6e) && IsEntry(34, 0x93, 0x5a) && IsEntry(35, 0x26, 0xf1)
    ensures IsEntry(36, 0x36, 0x55) && IsEntry(37, 0x3f, 0x4d) && IsEntry(38, 0xf7, 0xa8) && IsEntry(39, 0xcc, 0xc9)
  {
  }

  lemma High2()
    ensures IsEntry(40, 0x34, 0xc1) && IsEntry(41, 0xa5, 0x0a) && IsEntry(42, 0xe5, 0x98) && IsEntry(43, 0xf1, 0x15)
    ensures IsEntry(44, 0x71, 0x30) && IsEntry(45, 0xd8, 0x44) && IsEntry(46, 0x31, 0xa2) && IsEntry(47, 0x15, 0xc2)
  {
  }

  lemma Entries2(c: int) returns (y: bv8)
    requires 0 <= c < 16
    ensures IsEntry(32 + c, S2(c), y)
  {
    hide IsEntry;
    Low2();
    High2();
    match c
    case 0 => y := 0x3a; case 1 => y := 0x6e; case 2 => y := 0x5a; case 3 => y := 0xf1;
    case 4 => y := 0x55; case 5 => y := 0x4d; case 6 => y := 0xa8; case 7 => y := 0xc9;
    case 8 => y := 0xc1; case 9 => y := 0x0a; case 10 => y := 0x98; case 11 => y := 0x15;
    case 12 => y := 0x30; case 13 => y := 0x44; case 14 => y := 0xa2; case _ => y := 0xc2;
  }

  lemma Low3()
    ensures IsEntry(48, 0x04, 0x2c) && IsEntry(49, 0xc7, 0x45) && IsEntry(50, 0x23, 0x92) && IsEntry(51, 0xc3, 0x6c)
    ensures IsEntry(52, 0x18, 0xf3) && IsEntry(53, 0x96, 0x39) && IsEntry(54, 0x05, 0x66) && IsEntry(55, 0x9a, 0x42)
  {
  }

  lemma High3()
    ensures IsEntry(56, 0x07, 0xf2) && IsEntry(57, 0x12, 0x35) && IsEntry(58, 0x80, 0x20) && IsEntry(59, 0xe2, 0x6f)
    ensures IsEntry(60, 0xeb, 0x77) && IsEntry(61, 0x27, 0xbb) && IsEntry(62, 0xb2, 0x59) && IsEntry(63, 0x75, 0x19)
  {
  }

  lemma Entries3(c: int) returns (y: bv8)
    requires 0 <= c < 16
    ensures IsEntry(48 + c, S3(c), y)
  {
    hide IsEntry;
    Low3();
    High3();
    match c
    case 0 => y := 0x2c; case 1 => y := 0x45; case 2 => y := 0x92; case 3 => y := 0x6c;
    case 4 => y := 0xf3; case 5 => y := 0x39; case 6 => y := 0x66; case 7 => y := 0x42;
    case 8 => y := 0xf2; case 9 => y := 0x35; case 10 => y := 0x20; case 11 => y := 0x6f;
    case 12 => y := 0x77; case 13 => y := 0xbb; case 14 => y := 0x59; case _ => y := 0x19;
  }

  lemma Low4()
    ensures IsEntry(64, 0x09, 0x1d) && IsEntry(65, 0x83, 0xfe) && IsEntry(66, 0x2c, 0x37) && IsEntry(67, 0x1a, 0x67)
    ensures IsEntry(68, 0x1b, 0x2d) && IsEntry(69, 0x6e, 0x31) && IsEntry(70, 0x5a, 0xf5) && IsEntry(71, 0xa0, 0x69)
  {
  }

  lemma High4()
    ensures IsEntry(72, 0x52, 0xa7) && IsEntry(73, 0x3b, 0x64) && IsEntry(74, 0xd6, 0xab) && IsEntry(75, 0xb3, 0x13)
    ensures IsEntry(76, 0x29, 0x54) && IsEntry(77, 0xe3, 0x25) && IsEntry(78, 0x2f, 0xe9) && IsEntry(79, 0x84, 0x09)
  {
  }

  lemma Entries4(c: int) returns (y: bv8)
    requires 0 <= c < 16
    ensures IsEntry(64 + c, S4(c), y)
  {
    hide IsEntry;
    Low4();
    High4();
    match c
    case 0 => y := 0x1d; case 1 => y := 0xfe; case 2 => y := 0x37; case 3 => y := 0x67;
    case 4 => y := 0x2d; case 5 => y := 0x31; case 6 => y := 0xf5; case 7 => y := 0x69;
    case 8 => y := 0xa7; case 9 => y := 0x64; case 10 => y := 0xab; case 11 => y := 0x13;
    case 12 => y := 0x54; case 13 => y := 0x25; case 14 => y := 0xe9; case _ => y := 0x09;
  }

  lemma Low5()
    ensures IsEntry(80, 0x53, 0xed) && IsEntry(81, 0xd1, 0x5c) && IsEntry(82, 0x00, 0x05) && IsEntry(83, 0xed, 0xca)
    ensures IsEntry(84, 0x20, 0x4c) && IsEntry(85, 0xfc, 0x24) && IsEntry(86, 0xb1, 0x87) && IsEntry(87, 0x5b, 0xbf)
  {
  }

  lemma High5()
    ensures IsEntry(88, 0x6a, 0x18) && IsEntry(89, 0xcb, 0x3e) && IsEntry(90, 0xbe, 0x22) && IsEntry(91, 0x39, 0xf0)
    ensures IsEntry(92, 0x4a, 0x51) && IsEntry(93, 0x4c, 0xec) && IsEntry(94, 0x58, 0x61) && IsEntry(95, 0xcf, 0x17)
  {
  }

  lemma Entries5(c: int) returns (y: bv8)
    requires 0 <= c < 16
    ensures IsEntry(80 + c, S5(c), y)
  {
    hide IsEntry;
    Low5();
    High5();
    match c
    case 0 => y := 0xed; case 1 => y := 0x5c; case 2 => y := 0x05; case 3 => y := 0xca;
    case 4 => y := 0x4c; case 5 => y := 0x24; case 6 => y := 0x87; case 7 => y := 0xbf;
    case 8 => y := 0x18; case 9 => y := 0x3e; case 10 => y := 0x22; case 11 => y := 0xf0;
    case 12 => y := 0x51; case 13 => y := 0xec; case 14 => y := 0x61; case _ => y := 0x17;
  }

  lemma Low6()
    ensures IsEntry(96, 0xd0, 0x16) && IsEntry(97, 0xef, 0x5e) && IsEntry(98, 0xaa, 0xaf) && IsEntry(99, 0xfb, 0xd3)
    ensures IsEntry(100, 0x43, 0x49) && IsEntry(101, 0x4d, 0xa6) && IsEntry(102, 0x33, 0x36) && IsEntry(103, 0x85, 0x43)
  {
  }

  lemma High6()
    ensures IsEntry(104, 0x45, 0xf4) && IsEntry(105, 0xf9, 0x47) && IsEntry(106, 0x02, 0x91) && IsEntry(107, 0x7f, 0xdf)
    ensures IsEntry(108, 0x50, 0x33) && IsEntry(109, 0x3c, 0x93) && IsEntry(110, 0x9f, 0x21) && IsEntry(111, 0xa8, 0x3b)
  {
  }

  lemma Entries6(c: int) returns (y: bv8)
    requires 0 <= c < 16
    ensures IsEntry(96 + c, S6(c), y)
  {
    hide IsEntry;
    Low6();
    High6();
    match c
    case 0 => y := 0x16; case 1 => y := 0x5e; case 2 => y := 0xaf; case 3 => y := 0xd3;
    case 4 => y := 0x49; case 5 => y := 0xa6; case 6 => y := 0x36; case 7 => y := 0x43;
    case 8 => y := 0xf4; case 9 => y := 0x47; case 10 => y := 0x91; case 11 => y := 0xdf;
    case 12 => y := 0x33; case 13 => y := 0x93; case 14 => y := 0x21; case _ => y := 0x3b;
  }

  lemma Low7()
    ensures IsEntry(112, 0x51, 0x79) && IsEntry(113, 0xa3, 0xb7) && IsEntry(114, 0x40, 0x97) && IsEntry(115, 0x8f, 0x85)
    ensures IsEntry(116, 0x92, 0x10) && IsEntry(117, 0x9d, 0xb5) && IsEntry(118, 0x38, 0xba) && IsEntry(119, 0xf5, 0x3c)
  {
  }

  lemma High7()
    ensures IsEntry(120, 0xbc, 0xb6) && IsEntry(121, 0xb6, 0x70) && IsEntry(122, 0xda, 0xd0) && IsEntry(123, 0x21, 0x06)
    ensures IsEntry(124, 0x10, 0xa1) && IsEntry(125, 0xff, 0xfa) && IsEntry(126, 0xf3, 0x81) && IsEntry(127, 0xd2, 0x82)
  {
  }

  lemma Entries7(c: int) returns (y: bv8)
    requires 0 <= c < 16
    ensures IsEntry(112 + c, S7(c), y)
  {
    hide IsEntry;
    Low7();
    High7();
    match c
    case 0 => y := 0x79; case 1 => y := 0xb7; case 2 => y := 0x97; case 3 => y := 0x85;
    case 4 => y := 0x10; case 5 => y := 0xb5; case 6 => y := 0xba; case 7 => y := 0x3c;
    case 8 => y := 0xb6; case 9 => y := 0x70; case 10 => y := 0xd0; case 11 => y := 0x06;
    case 12 => y := 0xa1; case 13 => y := 0xfa; case 14 => y := 0x81; case _ => y := 0x82;
  }

  lemma Low8()
    ensures IsEntry(128, 0xcd, 0x83) && IsEntry(129, 0x0c, 0x7e) && IsEntry(130, 0x13, 0x7f) && IsEntry(131, 0xec, 0x80)
    ensures IsEntry(132, 0x5f, 0x96) && IsEntry(133, 0x97, 0x73) && IsEntry(134, 0x44, 0xbe) && IsEntry(135, 0x17, 0x56)
  {
  }

  lemma High8()
    ensures IsEntry(136, 0xc4, 0x9b) && IsEntry(137, 0xa7, 0x9e) && IsEntry(138, 0x7e, 0x95) && IsEntry(139, 0x3d, 0xd9)
    ensures IsEntry(140, 0x64, 0xf7) && IsEntry(141, 0x5d, 0x02) && IsEntry(142, 0x19, 0xb9) && IsEntry(143, 0x73, 0xa4)
  {
  }

  lemma Entries8(c: int) returns (y: bv8)
    requires 0 <= c < 16
    ensures IsEntry(128 + c, S8(c), y)
  {
    hide IsEntry;
    Low8();
    High8();
    match c
    case 0 => y := 0x83; case 1 => y := 0x7e; case 2 => y := 0x7f; case 3 => y := 0x80;
    case 4 => y := 0x96; case 5 => y := 0x73; case 6 => y := 0xbe; case 7 => y := 0x56;
    case 8 => y := 0x9b; case 9 => y := 0x9e; case 10 => y := 0x95; case 11 => y := 0xd9;
    case 12 => y := 0xf7; case 13 => y := 0x02; case 14 => y := 0xb9; case _ => y := 0xa4;
  }

  lemma Low9()
    ensures IsEntry(144, 0x60, 0xde) && IsEntry(145, 0x81, 0x6a) && IsEntry(146, 0x4f, 0x32) && IsEntry(147, 0xdc, 0x6d)
    ensures IsEntry(148, 0x22, 0xd8) && IsEntry(149, 0x2a, 0x8a) && IsEntry(150, 0x90, 0x84) && IsEntry(151, 0x88, 0x72)
  {
  }

  lemma High9()
    ensures IsEntry(152, 0x46, 0x2a) && IsEntry(153, 0xee, 0x14) && IsEntry(154, 0xb8, 0x9f) && IsEntry(155, 0x14, 0x88)
    ensures IsEntry(156, 0xde, 0xf9) && IsEntry(157, 0x5e, 0xdc) && IsEntry(158, 0x0b, 0x89) && IsEntry(159, 0xdb, 0x9a)
  {
  }

  lemma Entries9(c: int) returns (y: bv8)
    requires 0 <= c < 16
    ensures IsEntry(144 + c, S9(c), y)
  {
    hide IsEntry;
    Low9();
    High9();
    match c
    case 0 => y := 0xde; case 1 => y := 0x6a; case 2 => y := 0x32; case 3 => y := 0x6d;
    case 4 => y := 0xd8; case 5 => y := 0x8a; case 6 => y := 0x84; case 7 => y := 0x72;
    case 8 => y := 0x2a; case 9 => y := 0x14; case 10 => y := 0x9f; case 11 => y := 0x88;
    case 12 => y := 0xf9; case 13 => y := 0xdc; case 14 => y := 0x89; case _ => y := 0x9a;
  }

  lemma Low10()
    ensures IsEntry(160, 0xe0, 0xfb) && IsEntry(161, 0x32, 0x7c) && IsEntry(162, 0x3a, 0x2e) && IsEntry(163, 0x0a, 0xc3)
    ensures IsEntry(164, 0x49, 0x8f) && IsEntry(165, 0x06, 0xb8) && IsEntry(166, 0x24, 0x65) && IsEntry(167, 0x5c, 0x48)
  {
  }

  lemma High10()
    ensures IsEntry(168, 0xc2, 0x26) && IsEntry(169, 0xd3, 0xc8) && IsEntry(170, 0xac, 0x12) && IsEntry(171, 0x62, 0x4a)
    ensures IsEntry(172, 0x91, 0xce) && IsEntry(173, 0x95, 0xe7) && IsEntry(174, 0xe4, 0xd2) && IsEntry(175, 0x79, 0x62)
  {
  }

  lemma Entries10(c: int) returns (y: bv8)
    requires 0 <= c < 16
    ensures IsEntry(160 + c, S10(c), y)
  {
    hide IsEntry;
    Low10();
    High10();
    match c
    case 0 => y := 0xfb; case 1 => y := 0x7c; case 2 => y := 0x2e; case 3 => y := 0xc3;
    case 4 => y := 0x8f; case 5 => y := 0xb8; case 6 => y := 0x65; case 7 => y := 0x48;
    case 8 => y := 0x26; case 9 => y := 0xc8; case 10 => y := 0x12; case 11 => y := 0x4a;
    case 12 => y := 0xce; case 13 => y := 0xe7; case 14 => y := 0xd2; case _ => y := 0x62;
  }

  lemma Low11()
    ensures IsEntry(176, 0xe7, 0x0c) && IsEntry(177, 0xc8, 0xe0) && IsEntry(178, 0x37, 0x1f) && IsEntry(179, 0x6d, 0xef)
    ensures IsEntry(180, 0x8d, 0x11) && IsEntry(181, 0xd5, 0x75) && IsEntry(182, 0x4e, 0x78) && IsEntry(183, 0xa9, 0x71)
  {
  }

  lemma High11()
    ensures IsEntry(184, 0x6c, 0xa5) && IsEntry(185, 0x56, 0x8e) && IsEntry(186, 0xf4, 0x76) && IsEntry(187, 0xea, 0x3d)
    ensures IsEntry(188, 0x65, 0xbd) && IsEntry(189, 0x7a, 0xbc) && IsEntry(190, 0xae, 0x86) && IsEntry(191, 0x08, 0x57)
  {
  }

  lemma Entries11(c: int) returns (y: bv8)
    requires 0 <= c < 16
    ensures IsEntry(176 + c, S11(c), y)
  {
    hide IsEntry;
    Low11();
    High11();
    match c
    case 0 => y := 0x0c; case 1 => y := 0xe0; case 2 => y := 0x1f; case 3 => y := 0xef;
    case 4 => y := 0x11; case 5 => y := 0x75; case 6 => y := 0x78; case 7 => y := 0x71;
    case 8 => y := 0xa5; case 9 => y := 0x8e; case 10 => y := 0x76; case 11 => y := 0x3d;
    case 12 => y := 0xbd; case 13 => y := 0xbc; case 14 => y := 0x86; case _ => y := 0x57;
  }

  lemma Low12()
    ensures IsEntry(192, 0xba, 0x0b) && IsEntry(193, 0x78, 0x28) && IsEntry(194, 0x25, 0x2f) && IsEntry(195, 0x2e, 0xa3)
    ensures IsEntry(196, 0x1c, 0xda) && IsEntry(197, 0xa6, 0xd4) && IsEntry(198, 0xb4, 0xe4) && IsEntry(199, 0xc6, 0x0f)
  {
  }

  lemma High12()
    ensures IsEntry(200, 0xe8, 0xa9) && IsEntry(201, 0xdd, 0x27) && IsEntry(202, 0x74, 0x53) && IsEntry(203, 0x1f, 0x04)
    ensures IsEntry(204, 0x4b, 0x1b) && IsEntry(205, 0xbd, 0xfc) && IsEntry(206, 0x8b, 0xac) && IsEntry(207, 0x8a, 0xe6)
  {
  }

  lemma Entries12(c: int) returns (y: bv8)
    requires 0 <= c < 16
    ensures IsEntry(192 + c, S12(c), y)
  {
    hide IsEntry;
    Low12();
    High12();
    match c
    case 0 => y := 0x0b; case 1 => y := 0x28; case 2 => y := 0x2f; case 3 => y := 0xa3;
    case 4 => y := 0xda; case 5 => y := 0xd4; case 6 => y := 0xe4; case 7 => y := 0x0f;
    case 8 => y := 0xa9; case 9 => y := 0x27; case 10 => y := 0x53; case 11 => y := 0x04;
    case 12 => y := 0x1b; case 13 => y := 0xfc; case 14 => y := 0xac; case _ => y := 0xe6;
  }

  lemma Low13()
    ensures IsEntry(208, 0x70, 0x7a) && IsEntry(209, 0x3e, 0x07) && IsEntry(210, 0xb5, 0xae) && IsEntry(211, 0x66, 0x63)
    ensures IsEntry(212, 0x48, 0xc5) && IsEntry(213, 0x03, 0xdb) && IsEntry(214, 0xf6, 0xe2) && IsEntry(215, 0x0e, 0xea)
  {
  }

  lemma High13()
    ensures IsEntry(216, 0x61, 0x94) && IsEntry(217, 0x35, 0x8b) && IsEntry(218, 0x57, 0xc4) && IsEntry(219, 0xb9, 0xd5)
    ensures IsEntry(220, 0x86, 0x9d) && IsEntry(221, 0xc1, 0xf8) && IsEntry(222, 0x1d, 0x90) && IsEntry(223, 0x9e, 0x6b)
  {
  }

  lemma Entries13(c: int) returns (y: bv8)
    requires 0 <= c < 16
    ensures IsEntry(208 + c, S13(c), y)
  {
    hide IsEntry;
    Low13();
    High13();
    match c
    case 0 => y := 0x7a; case 1 => y := 0x07; case 2 => y := 0xae; case 3 => y := 0x63;
    case 4 => y := 0xc5; case 5 => y := 0xdb; case 6 => y := 0xe2; case 7 => y := 0xea;
    case 8 => y := 0x94; case 9 => y := 0x8b; case 10 => y := 0xc4; case 11 => y := 0xd5;
    case 12 => y := 0x9d; case 13 => y := 0xf8; case 14 => y := 0x90; case _ => y := 0x6b;
  }

  lemma Low14()
    ensures IsEntry(224, 0xe1, 0xb1) && IsEntry(225, 0xf8, 0x0d) && IsEntry(226, 0x98, 0xd6) && IsEntry(227, 0x11, 0xeb)
    ensures IsEntry(228, 0x69, 0xc6) && IsEntry(229, 0xd9, 0x0e) && IsEntry(230, 0x8e, 0xcf) && IsEntry(231, 0x94, 0xad)
  {
  }

  lemma High14()
    ensures IsEntry(232, 0x9b, 0x08) && IsEntry(233, 0x1e, 0x4e) && IsEntry(234, 0x87, 0xd7) && IsEntry(235, 0xe9, 0xe3)
    ensures IsEntry(236, 0xce, 0x5d) && IsEntry(237, 0x55, 0x50) && IsEntry(238, 0x28, 0x1e) && IsEntry(239, 0xdf, 0xb3)
  {
  }

  lemma Entries14(c: int) returns (y: bv8)
    requires 0 <= c < 16
    ensures IsEntry(224 + c, S14(c), y)
  {
    hide IsEntry;
    Low14();
    High14();
    match c
    case 0 => y := 0xb1; case 1 => y := 0x0d; case 2 => y := 0xd6; case 3 => y := 0xeb;
    case 4 => y := 0xc6; case 5 => y := 0x0e; case 6 => y := 0xcf; case 7 => y := 0xad;
    case 8 => y := 0x08; case 9 => y := 0x4e; case 10 => y := 0xd7; case 11 => y := 0xe3;
    case 12 => y := 0x5d; case 13 => y := 0x50; case 14 => y := 0x1e; case _ => y := 0xb3;
  }

  lemma Low15()
    ensures IsEntry(240, 0x8c, 0x5b) && IsEntry(241, 0xa1, 0x23) && IsEntry(242, 0x89, 0x38) && IsEntry(243, 0x0d, 0x34)
    ensures IsEntry(244, 0xbf, 0x68) && IsEntry(245, 0xe6, 0x46) && IsEntry(246, 0x42, 0x03) && IsEntry(247, 0x68, 0x8c)
  {
  }

  lemma High15()
    ensures IsEntry(248, 0x41, 0xdd) && IsEntry(249, 0x99, 0x9c) && IsEntry(250, 0x2d, 0x7d) && IsEntry(251, 0x0f, 0xa0)
    ensures IsEntry(252, 0xb0, 0xcd) && IsEntry(253, 0x54, 0x1a) && IsEntry(254, 0xbb, 0x41) && IsEntry(255, 0x16, 0x1c)
  {
  }

  lemma Entries15(c: int) returns (y: bv8)
    requires 0 <= c < 16
    ensures IsEntry(240 + c, S15(c), y)
  {
    hide IsEntry;
    Low15();
    High15();
    match c
    case 0 => y := 0x5b; case 1 => y := 0x23; case 2 => y := 0x38; case 3 => y := 0x34;
    case 4 => y := 0x68; case 5 => y := 0x46; case 6 => y := 0x03; case 7 => y := 0x8c;
    case 8 => y := 0xdd; case 9 => y := 0x9c; case 10 => y := 0x7d; case 11 => y := 0xa0;
    case 12 => y := 0xcd; case 13 => y := 0x1a; case 14 => y := 0x41; case _ => y := 0x1c;
  }

  /** Every entry is the affine image of the inverse of the byte it stands for. */
  lemma EveryEntry(r: int, c: int) returns (y: bv8)
    requires 0 <= r < 16 && 0 <= c < 16
    ensures IsEntry(16 * r + c, SubAt(r, c), y)
  {
    hide IsEntry, S0, S1, S2, S3, S4, S5, S6, S7, S8, S9, S10, S11, S12, S13, S14, S15;
    match r
    case 0 => y := Entries0(c);
    case 1 => y := Entries1(c);
    case 2 => y := Entries2(c);
    case 3 => y := Entries3(c);
    case 4 => y := Entries4(c);
    case 5 => y := Entries5(c);
    case 6 => y := Entries6(c);
    case 7 => y := Entries7(c);
    case 8 => y := Entries8(c);
    case 9 => y := Entries9(c);
    case 10 => y := Entries10(c);
    case 11 => y := Entries11(c);
    case 12 => y := Entries12(c);
    case 13 => y := Entries13(c);
    case 14 => y := Entries14(c);
    case _ => y := Entries15(c);
  }
}

module AesStandard {
  import opened SubstitutionTables
  import opened ByteField
  import opened Blocks
  import opened Aes
  import opened AesField
  import opened AesEntries

  // ---- Substitution, section 5.1.1 ---------------------------------------------------------

  /** Every byte has an inverse, and its entry is the affine image of it. */
  lemma EntryOf(x: bv8) returns (y: bv8)
    ensures Inverses(x, y) && SubByte(x) == Affine(y)
  {
    hide Product, Reckoned, Affine, Sbox;
    var k := x as int;
    y := EntryAt(k);
    BitsRoundTrip(x);
    ReckonedIsProduct(x, y);
  }

  /** With an inverse of its own, the inverse of a byte has that byte for one. */
  lemma InverseBack(x: bv8, y: bv8)
    requires x != 0 && Product(x, y) == 1
    ensures Product(y, x) == 1
  {
    hide Product, SubByte, Affine;
    ProductOfZero(x);
    var z := EntryOf(y);
    Associates(x, y, z);
    TimesOne(x);
    TimesOne(z);
  }

  lemma EntryAt(k: int) returns (y: bv8)
    requires 0 <= k < 256
    ensures IsEntry(k, Sbox(k), y)
  {
    hide IsEntry, SubAt;
    y := EveryEntry(k / 16, k % 16);
  }

  /** The table holds, for every byte, the affine image of its inverse in the field, and zero's for zero. */
  lemma SubIsStandard(x: bv8, y: bv8)
    requires Inverses(x, y)
    ensures SubByte(x) == Affine(y)
  {
    hide Product, SubByte, Affine;
    var z := EntryOf(x);
    if x != 0 {
      InverseBack(x, z);
      OneInverse(z, x, y);
    }
  }

  ghost function InverseOf(x: bv8): (y: bv8)
    ensures Inverses(x, y)
  {
    assert exists y :: Inverses(x, y) by {
      var y := EntryOf(x);
    }
    var y :| Inverses(x, y);
    y
  }

  // ---- Rows and columns, sections 5.1.2 and 5.1.3 --------------------------------------------

  /** A sum of two numbers below four, counted around. */
  function Around(a: nat, b: nat): (r: nat)
    requires a < 4 && b < 4
    ensures r < 4 && r == (a + b) % 4
  {
    if a + b < 4 then a + b else a + b - 4
  }

  /** Where a row and a column of the state stand in a block. */
  function Cell(r: nat, c: nat): (k: nat)
    requires r < 4 && c < 4
    ensures k < BLOCK
  {
    4 * c + r
  }

  lemma CellOf(k: nat)
    requires k < BLOCK
    ensures Cell(k % 4, k / 4) == k
  {
  }

  /** Row `r` of the state moves `r` columns to the left. */
  lemma ShiftIsStandard(s: Block, r: nat, c: nat)
    requires r < 4 && c < 4
    ensures Shift(s)[Cell(r, c)] == s[Cell(r, Around(c, r))]
  {
    if r == 0 {
    } else if r == 1 {
    } else if r == 2 {
    } else {
      assert r == 3;
    }
  }

  /** And back. */
  lemma UnshiftIsStandard(s: Block, r: nat, c: nat)
    requires r < 4 && c < 4
    ensures Unshift(s)[Cell(r, Around(c, r))] == s[Cell(r, c)]
  {
    if r == 0 {
    } else if r == 1 {
    } else if r == 2 {
    } else {
      assert r == 3;
    }
  }

  /** The matrix with rows 2 3 1 1, turned. */
  lemma MixIsStandard(s: Block, r: nat, c: nat)
    requires r < 4 && c < 4
    ensures MixColumns(s)[Cell(r, c)] == Sum(Product(s[Cell(r, c)], 2), Product(s[Cell(Around(r, 1), c)], 3), s[Cell(Around(r, 2), c)], s[Cell(Around(r, 3), c)])
  {
    hide Mix, Product, Xor, Next, Cell, Around;
    NextIs(r, c);
    var a, b := s[Cell(r, c)], s[Cell(Around(r, 1), c)];
    MixIsMatrix(a, b, s[Cell(Around(r, 2), c)], s[Cell(Around(r, 3), c)]);
    TwoAndThree(a);
    TwoAndThree(b);
  }

  /** And the one with rows 14 11 13 9. */
  lemma UnmixIsStandard(s: Block, r: nat, c: nat)
    requires r < 4 && c < 4
    ensures UnmixColumns(s)[Cell(r, c)] ==
            Sum(Product(s[Cell(r, c)], 14), Product(s[Cell(Around(r, 1), c)], 11), Product(s[Cell(Around(r, 2), c)], 13), Product(s[Cell(Around(r, 3), c)], 9))
  {
    hide Product, Xor, Next, By9, By11, By13, By14, Multiply, Cell, Around;
    NextIs(r, c);
    MultiplyBy(s[Cell(r, c)]);
    MultiplyBy(s[Cell(Around(r, 1), c)]);
    MultiplyBy(s[Cell(Around(r, 2), c)]);
    MultiplyBy(s[Cell(Around(r, 3), c)]);
    MultiplyIsProduct(s[Cell(r, c)], 14);
    MultiplyIsProduct(s[Cell(Around(r, 1), c)], 11);
    MultiplyIsProduct(s[Cell(Around(r, 2), c)], 13);
    MultiplyIsProduct(s[Cell(Around(r, 3), c)], 9);
  }

  lemma NextIs(r: nat, c: nat)
    requires r < 4 && c < 4
    ensures Next(Cell(r, c)) == Cell(Around(r, 1), c) && Next(Cell(Around(r, 1), c)) == Cell(Around(r, 2), c)
    ensures Next(Cell(Around(r, 2), c)) == Cell(Around(r, 3), c)
  {
    hide Next, Cell;
    NextCell(r, c);
    NextCell(Around(r, 1), c);
    NextCell(Around(r, 2), c);
  }

  lemma NextCell(r: nat, c: nat)
    requires r < 4 && c < 4
    ensures Next(Cell(r, c)) == Cell(Around(r, 1), c)
  {
    assert (4 * c + r) % 4 == r;
  }

  lemma TwoAndThree(x: bv8)
    ensures Product(x, 2) == XTime(x) && Product(x, 3) == Xor(XTime(x), x)
  {
    assert Has(3, 1) && Has(3, 2) && !Has(3, 4) && !Has(3, 8) && !Has(3, 16) && !Has(3, 32) && !Has(3, 64) && !Has(3, 128);
    assert !Has(2, 1) && Has(2, 2) && !Has(2, 4) && !Has(2, 8) && !Has(2, 16) && !Has(2, 32) && !Has(2, 64) && !Has(2, 128);
    hide Has, XTime, Xor, Times4, Times8, Times16, Times32, Times64, Times128;
    XorZero(XTime(x));
    XorZero(0);
    XorZero(Xor(x, XTime(x)));
    XorTurns(x, XTime(x));
  }

  // ---- The cipher, section 5.1 -----------------------------------------------------------------

  /** The byte the first two steps of a round bring to a row and a column. */
  ghost function Brought(s: Block, r: nat, c: nat): bv8
    requires r < 4 && c < 4
  {
    Affine(InverseOf(s[Cell(r, Around(c, r))]))
  }

  /** One byte of a full round, and one of the last, from the state before it. */
  ghost function RoundAt(s: Block, key: Block, r: nat, c: nat): bv8
    requires r < 4 && c < 4
  {
    Xor(Sum(Product(Brought(s, r, c), 2), Product(Brought(s, Around(r, 1), c), 3), Brought(s, Around(r, 2), c), Brought(s, Around(r, 3), c)),
        key[Cell(r, c)])
  }

  ghost function LastAt(s: Block, key: Block, r: nat, c: nat): bv8
    requires r < 4 && c < 4
  {
    Xor(Brought(s, r, c), key[Cell(r, c)])
  }

  /** The state the standard gives after a number of full rounds; the round keys follow each other in `w`. */
  ghost function State(input: Block, w: RoundKeys, round: nat): Block
    requires round < Last(w)
  {
    var key := w[BLOCK * round..BLOCK * (round + 1)];
    if round == 0 then seq(BLOCK, k requires 0 <= k < BLOCK => Xor(input[k], key[k]))
    else
      var before := State(input, w, round - 1);
      seq(BLOCK, k requires 0 <= k < BLOCK => RoundAt(before, key, k % 4, k / 4))
  }

  lemma BroughtIs(s: Block, r: nat, c: nat)
    requires r < 4 && c < 4
    ensures Shift(Sub(s))[Cell(r, c)] == Brought(s, r, c)
  {
    hide SubByte, Affine, Shift, Cell;
    ShiftIsStandard(Sub(s), r, c);
    var x := s[Cell(r, Around(c, r))];
    SubIsStandard(x, InverseOf(x));
  }

  lemma RoundIs(s: Block, key: Block, k: nat)
    requires k < BLOCK
    ensures Add(MixColumns(Shift(Sub(s))), key)[k] == RoundAt(s, key, k % 4, k / 4)
  {
    hide Sub, Shift, MixColumns, Product, Brought, Xor, Cell;
    var r, c := k % 4, k / 4;
    CellOf(k);
    MixIsStandard(Shift(Sub(s)), r, c);
    BroughtIs(s, r, c);
    BroughtIs(s, Around(r, 1), c);
    BroughtIs(s, Around(r, 2), c);
    BroughtIs(s, Around(r, 3), c);
  }

  lemma {:induction false} StateIs(input: Block, w: RoundKeys, round: nat)
    requires round < Last(w)
    ensures Rounds(input, w, round) == State(input, w, round)
  {
    hide Sub, Shift, MixColumns, RoundAt, Xor;
    if round > 0 {
      StateIs(input, w, round - 1);
      var before := State(input, w, round - 1);
      forall k | 0 <= k < BLOCK
        ensures Add(MixColumns(Shift(Sub(before))), KeyOf(w, round))[k] == RoundAt(before, KeyOf(w, round), k % 4, k / 4)
      {
        RoundIs(before, KeyOf(w, round), k);
      }
    }
  }

  /** What the cipher computes is, byte for byte, what the standard gives. */
  lemma CipherIsStandard(input: Block, w: RoundKeys, r: nat, c: nat)
    requires r < 4 && c < 4
    ensures Cipher(input, w)[Cell(r, c)] == LastAt(State(input, w, Last(w) - 1), w[BLOCK * Last(w)..], r, c)
  {
    hide Sub, Shift, Brought, Rounds, State, Cell, Xor;
    StateIs(input, w, Last(w) - 1);
    BroughtIs(State(input, w, Last(w) - 1), r, c);
    assert w[BLOCK * Last(w)..] == KeyOf(w, Last(w));
  }
}
