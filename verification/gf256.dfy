/** Arithmetic in GF(2^8), the AES field of FIPS 197 section 4.2 (modulus x^8 + x^4 + x^3 + x + 1). */
module Gf256 {
  type byte = bv8

  function Add(a: byte, b: byte): byte { a ^ b }

  /** Multiplication by x: `xtime` of FIPS 197 section 4.2.1. */
  function XTime(a: byte): byte {
    Add(Shl(a), Pick(High(a), 0x1b))
  }

  function Shl(a: byte): byte { a << 1 }

  function Shr(a: byte): byte { a >> 1 }

  predicate High(a: byte) { a & 0x80 != 0 }

  predicate Low(a: byte) { a & 1 != 0 }

  function Pick(p: bool, a: byte): byte { if p then a else 0 }

  /** The product of `a` and the low `n` bits of `b`, as a sum of multiples x^i * a. */
  function MulBits(a: byte, b: byte, n: nat): byte
    decreases n
  {
    if n == 0 then 0 else Add(Pick(Low(b), a), MulBits(XTime(a), Shr(b), n - 1))
  }

  function Mul(a: byte, b: byte): byte { MulBits(a, b, 8) }

  function Pow(a: byte, n: nat): byte
    decreases n
  {
    if n == 0 then 1 else Mul(Pow(a, n - 1), a)
  }

  // ----- addition -----

  lemma AddAssoc(a: byte, b: byte, c: byte)
    ensures Add(Add(a, b), c) == Add(a, Add(b, c))
  {}

  lemma AddLaws(a: byte, b: byte)
    ensures Add(a, b) == Add(b, a)
    ensures Add(a, a) == 0 && Add(a, 0) == a && Add(0, a) == a
    ensures Add(a, b) == 0 <==> a == b
    ensures Add(Add(a, b), b) == a
  {}

  lemma AddSwap(a: byte, b: byte, c: byte, d: byte)
    ensures Add(Add(a, b), Add(c, d)) == Add(Add(a, c), Add(b, d))
  {
    hide Add;
    AddAssoc(a, b, Add(c, d));
    AddAssoc(b, c, d);
    AddLaws(b, c);
    AddAssoc(c, b, d);
    AddAssoc(a, c, Add(b, d));
  }

  lemma BitsOfSum(a: byte, b: byte)
    ensures Low(Add(a, b)) == (Low(a) != Low(b)) && High(Add(a, b)) == (High(a) != High(b))
    ensures Shr(Add(a, b)) == Add(Shr(a), Shr(b)) && Shl(Add(a, b)) == Add(Shl(a), Shl(b))
  {}

  lemma PickSum(p: bool, q: bool, a: byte, b: byte)
    ensures Pick(p != q, a) == Add(Pick(p, a), Pick(q, a))
    ensures Pick(p, Add(a, b)) == Add(Pick(p, a), Pick(p, b))
  {}

  // ----- multiplication is bilinear -----

  lemma XTimeAdd(a: byte, b: byte)
    ensures XTime(Add(a, b)) == Add(XTime(a), XTime(b))
  {
    hide Add, Shl, High, Pick;
    BitsOfSum(a, b);
    PickSum(High(a), High(b), 0x1b, 0);
    AddSwap(Shl(a), Shl(b), Pick(High(a), 0x1b), Pick(High(b), 0x1b));
  }

  lemma {:induction false} MulBitsAddRight(a: byte, b: byte, c: byte, n: nat)
    ensures MulBits(a, Add(b, c), n) == Add(MulBits(a, b, n), MulBits(a, c, n))
    decreases n
  {
    if n == 0 {
      AddLaws(0, 0);
    } else {
      hide Add, Shr, Low, XTime, Pick;
      BitsOfSum(b, c);
      PickSum(Low(b), Low(c), a, 0);
      MulBitsAddRight(XTime(a), Shr(b), Shr(c), n - 1);
      AddSwap(Pick(Low(b), a), Pick(Low(c), a), MulBits(XTime(a), Shr(b), n - 1), MulBits(XTime(a), Shr(c), n - 1));
    }
  }

  lemma {:induction false} MulBitsAddLeft(a: byte, b: byte, c: byte, n: nat)
    ensures MulBits(Add(a, b), c, n) == Add(MulBits(a, c, n), MulBits(b, c, n))
    decreases n
  {
    if n == 0 {
      AddLaws(0, 0);
    } else {
      hide Add, Shr, Low, XTime, Pick;
      XTimeAdd(a, b);
      PickSum(Low(c), false, a, b);
      MulBitsAddLeft(XTime(a), XTime(b), Shr(c), n - 1);
      AddSwap(Pick(Low(c), a), Pick(Low(c), b), MulBits(XTime(a), Shr(c), n - 1), MulBits(XTime(b), Shr(c), n - 1));
    }
  }

  lemma {:induction false} MulBitsXTime(a: byte, b: byte, n: nat)
    ensures MulBits(XTime(a), b, n) == XTime(MulBits(a, b, n))
    decreases n
  {
    if n == 0 {
    } else {
      hide Add, Shr, Low, XTime, Pick;
      MulBitsXTime(XTime(a), Shr(b), n - 1);
      XTimeAdd(Pick(Low(b), a), MulBits(XTime(a), Shr(b), n - 1));
      XTimePick(Low(b), a);
    }
  }

  lemma XTimePick(p: bool, a: byte)
    ensures XTime(Pick(p, a)) == Pick(p, XTime(a))
  {}

  lemma MulBitsZero(b: byte, n: nat)
    ensures MulBits(0, b, n) == 0
    decreases n
  {}

  lemma OneTimes(a: byte)
    ensures Mul(1, a) == a
  {
    var high, low := a & 0xf0, a & 0x0f;
    assert Add(high, low) == a;
    OneTimesHigh(high);
    OneTimesLow(low);
    hide Add, XTime, Shr, Low, Pick;
    MulBitsAddRight(1, high, low, 8);
  }

  lemma OneTimesHigh(a: byte)
    requires a & 0x0f == 0
    ensures Mul(1, a) == a
  {}

  lemma OneTimesLow(a: byte)
    requires a & 0xf0 == 0
    ensures Mul(1, a) == a
  {}

  // ----- the commutative ring -----

  lemma {:induction false} MulBitsOfProduct(z: byte, a: byte, b: byte, n: nat)
    ensures MulBits(Mul(z, a), b, n) == Mul(MulBits(z, b, n), a)
    decreases n
  {
    if n == 0 {
      MulBitsZero(a, 8);
    } else {
      hide Add, Shr, Low, XTime, Pick, Mul;
      MulXTimeLeft(z, a);
      MulBitsOfProduct(XTime(z), a, Shr(b), n - 1);
      MulAddLeft(Pick(Low(b), z), MulBits(XTime(z), Shr(b), n - 1), a);
      MulPick(Low(b), z, a);
    }
  }

  lemma MulPick(p: bool, z: byte, a: byte)
    ensures Mul(Pick(p, z), a) == Pick(p, Mul(z, a))
  {
    MulBitsZero(a, 8);
  }

  lemma MulXTimeLeft(a: byte, b: byte)
    ensures Mul(XTime(a), b) == XTime(Mul(a, b))
  {
    MulBitsXTime(a, b, 8);
  }

  lemma MulAddLeft(a: byte, b: byte, c: byte)
    ensures Mul(Add(a, b), c) == Add(Mul(a, c), Mul(b, c))
  {
    hide Add, XTime, Shr, Low, Pick;
    MulBitsAddLeft(a, b, c, 8);
  }

  lemma MulComm(a: byte, b: byte)
    ensures Mul(a, b) == Mul(b, a)
  {
    hide Add, Shr, Low, XTime, Pick;
    OneTimes(a);
    OneTimes(b);
    MulBitsOfProduct(1, b, a, 8);
  }

  lemma MulAssoc(a: byte, b: byte, c: byte)
    ensures Mul(Mul(a, b), c) == Mul(a, Mul(b, c))
  {
    hide Add, Shr, Low, XTime, Pick;
    MulBitsOfProduct(a, b, c, 8);
    MulComm(a, b);
    MulBitsOfProduct(b, a, c, 8);
    MulComm(a, Mul(b, c));
  }

  // ----- powers -----

  lemma {:induction false} PowAdd(a: byte, m: nat, n: nat)
    ensures Pow(a, m + n) == Mul(Pow(a, m), Pow(a, n))
    decreases n
  {
    hide Mul;
    if n == 0 {
      MulComm(Pow(a, m), 1);
      OneTimes(Pow(a, m));
    } else {
      PowAdd(a, m, n - 1);
      MulAssoc(Pow(a, m), Pow(a, n - 1), a);
    }
  }

  lemma {:induction false} PowSquare(a: byte, n: nat)
    ensures Pow(Mul(a, a), n) == Pow(a, 2 * n)
    decreases n
  {
    hide Mul;
    if n == 0 {
    } else {
      PowSquare(a, n - 1);
      assert Pow(a, 2 * n - 1) == Mul(Pow(a, 2 * n - 2), a);
      MulAssoc(Pow(a, 2 * n - 2), a, a);
    }
  }

  /** `a` squared `n` times. */
  function Squared(a: byte, n: nat): byte
    decreases n
  {
    if n == 0 then a else Squared(Mul(a, a), n - 1)
  }

  function Exp2(n: nat): nat { if n == 0 then 1 else 2 * Exp2(n - 1) }

  lemma {:induction false} SquaredIsPow(a: byte, n: nat)
    ensures Squared(a, n) == Pow(a, Exp2(n))
    decreases n
  {
    if n == 0 {
      hide Mul;
      OneTimes(a);
      assert Pow(a, 1) == Mul(Pow(a, 0), a);
    } else {
      hide Mul, Pow;
      SquaredIsPow(Mul(a, a), n - 1);
      PowSquare(a, Exp2(n - 1));
    }
  }

  /** Squaring is additive in characteristic two. */
  lemma SquareAdd(a: byte, b: byte)
    ensures Mul(Add(a, b), Add(a, b)) == Add(Mul(a, a), Mul(b, b))
  {
    hide Mul, Add;
    var s := Add(a, b);
    MulAddLeft(a, b, s);
    MulComm(a, s); MulAddLeft(a, b, a);
    MulComm(b, s); MulAddLeft(a, b, b);
    MulComm(b, a);
    var ab := Mul(a, b);
    AddLaws(ab, Mul(b, b));
    AddSwap(Mul(a, a), ab, Mul(b, b), ab);
    AddLaws(ab, ab);
    AddLaws(Add(Mul(a, a), Mul(b, b)), 0);
  }

  lemma {:induction false} SquaredAdd(a: byte, b: byte, n: nat)
    ensures Squared(Add(a, b), n) == Add(Squared(a, n), Squared(b, n))
    decreases n
  {
    hide Mul, Add;
    if n == 0 {
    } else {
      SquareAdd(a, b);
      SquaredAdd(Mul(a, a), Mul(b, b), n - 1);
    }
  }

  lemma {:induction false} SquaredXTime(a: byte, n: nat)
    ensures Squared(XTime(a), n) == Mul(Squared(2, n), Squared(a, n))
    decreases n
  {
    SquaredMul(2, a, n);
    MulByTwo(a);
  }

  lemma MulByTwo(a: byte)
    ensures Mul(2, a) == XTime(a)
  {
    OneTimes(a);
    MulXTimeLeft(1, a);
    assert XTime(1) == 2;
  }

  lemma {:induction false} SquaredMul(a: byte, b: byte, n: nat)
    ensures Squared(Mul(a, b), n) == Mul(Squared(a, n), Squared(b, n))
    decreases n
  {
    hide Mul;
    if n == 0 {
    } else {
      MulAssoc(a, b, Mul(a, b));
      MulComm(b, Mul(a, b));
      MulAssoc(a, b, b);
      MulAssoc(a, a, Mul(b, b));
      SquaredMul(Mul(a, a), Mul(b, b), n - 1);
    }
  }

  lemma {:induction false} SquaredZero(n: nat)
    ensures Squared(0, n) == 0
    decreases n
  {
    if n == 0 {
    } else {
      hide Mul;
      MulZero(0);
      SquaredZero(n - 1);
    }
  }

  lemma {:induction false} SquaredOne(n: nat)
    ensures Squared(1, n) == 1
    decreases n
  {
    if n == 0 {
    } else {
      hide Mul;
      OneTimes(1);
      SquaredOne(n - 1);
    }
  }

  lemma SquaresOfTwo()
    ensures Mul(2, 2) == 4 && Mul(4, 4) == 16 && Mul(16, 16) == 27 && Mul(27, 27) == 94
  {
    assert Mul(27, 27) == 94;
  }

  lemma SquaresOfTwoContinued()
    ensures Mul(94, 94) == 228 && Mul(228, 228) == 77 && Mul(77, 77) == 250 && Mul(250, 250) == 2
  {}

  /** x^256 = x: the generator of the polynomial basis is fixed by eight squarings. */
  lemma SquaredTwo()
    ensures Squared(2, 8) == 2
  {
    SquaresOfTwo();
    SquaresOfTwoContinued();
    hide Mul;
  }

  lemma MulZero(a: byte)
    ensures Mul(0, a) == 0 && Mul(a, 0) == 0
  {
    hide XTime, Add, Pick;
    MulBitsZero(a, 8);
    MulComm(0, a);
  }

  lemma {:induction false} SquaredMulBits(z: byte, b: byte, n: nat, m: nat)
    requires Squared(2, m) == 2
    ensures Squared(MulBits(z, b, n), m) == MulBits(Squared(z, m), b, n)
    decreases n
  {
    hide Add, Shr, Low, XTime, Mul, Squared;
    SquaredZero(m);
    if n == 0 {
    } else {
      SquaredAdd(Pick(Low(b), z), MulBits(XTime(z), Shr(b), n - 1), m);
      SquaredMulBits(XTime(z), Shr(b), n - 1, m);
      SquaredXTime(z, m);
      MulByTwo(Squared(z, m));
    }
  }

  /** Every element is its own 256th power: eight squarings fix 1 and x, hence the whole basis. */
  lemma Pow256(a: byte)
    ensures Pow(a, 256) == a
  {
    hide Mul, Pow, Squared, MulBits;
    SquaredTwo();
    SquaredOne(8);
    OneTimes(a);
    MulBitsOne(a);
    SquaredMulBits(1, a, 8, 8);
    SquaredIsPow(a, 8);
    assert Exp2(8) == 256;
  }

  lemma MulBitsOne(a: byte)
    ensures MulBits(1, a, 8) == Mul(1, a)
  {}

  /** The only idempotents are 0 and 1. */
  lemma Idempotent(e: byte)
    requires Mul(e, e) == e
    ensures e == 0 || e == 1
  {
    if High(e) { IdempotentHigh(e); } else { IdempotentLow(e); }
  }

  lemma IdempotentHigh(e: byte)
    requires e & 0x80 != 0
    ensures Mul(e, e) != e
  {}

  lemma IdempotentLow(e: byte)
    requires e & 0x80 == 0 && Mul(e, e) == e
    ensures e == 0 || e == 1
  {}

  lemma PowStep(a: byte, n: nat)
    ensures Pow(a, n + 1) == Mul(Pow(a, n), a)
  {
    hide Mul;
  }

  /** The nonzero elements have order dividing 255. */
  lemma Pow255(a: byte)
    requires a != 0
    ensures Pow(a, 255) == 1
  {
    hide Mul, Pow;
    var e := Pow(a, 255);
    Pow256(a);
    PowAdd(a, 255, 255);
    PowAdd(a, 256, 254);
    PowStep(a, 254);
    MulComm(a, Pow(a, 254));
    Idempotent(e);
    PowStep(a, 255);
    MulZero(a);
  }

  /** The inverse computed by the source: a^254. */
  function Inv(a: byte): byte { Pow(a, 254) }

  lemma InvCorrect(a: byte)
    requires a != 0
    ensures Mul(a, Inv(a)) == 1
  {
    hide Mul, Pow;
    Pow255(a);
    PowStep(a, 254);
    MulComm(a, Pow(a, 254));
  }

  lemma NoZeroDivisors(a: byte, b: byte)
    ensures Mul(a, b) == 0 <==> a == 0 || b == 0
  {
    hide Mul, Inv;
    MulZero(a);
    MulZero(b);
    if a != 0 && Mul(a, b) == 0 {
      InvCorrect(a);
      MulComm(a, Inv(a));
      MulAssoc(Inv(a), a, b);
      OneTimes(b);
      MulZero(Inv(a));
    }
  }

  lemma InvZero()
    ensures Inv(0) == 0
  {
    hide Mul, Pow;
    PowStep(0, 253);
    MulZero(Pow(0, 253));
  }

  // ----- the source's loops -----

  method GfMul(a0: byte, b0: byte) returns (p: byte)
    ensures p == Mul(a0, b0)
  {
    hide Mul, MulBits;
    var a, b := a0, b0;
    p := 0;
    MulUnfold(a, b);
    AddLaws(0, Mul(a, b));
    for i := 0 to 8
      invariant Add(p, MulBits(a, b, 8 - i)) == Mul(a0, b0)
    {
      MulBitsStep(a, b, 8 - i);
      AddAssoc(p, a & (0 - (b & 1)), MulBits(XTime(a), Shr(b), 7 - i));
      p := p ^ (a & (0 - (b & 1)));
      b := b >> 1;
      var hi := 0 - (a >> 7); // all ones or all zeros
      XTimeMasked(a);
      a := a << 1;
      a := a ^ (0x1b & hi);
    }
    MulBitsStep(a, b, 0);
    AddLaws(p, 0);
  }

  lemma MulUnfold(a: byte, b: byte)
    ensures Mul(a, b) == MulBits(a, b, 8)
  {}

  lemma MulBitsStep(a: byte, b: byte, n: nat)
    ensures MulBits(a, b, n) == if n == 0 then 0 else Add(a & (0 - (b & 1)), MulBits(XTime(a), Shr(b), n - 1))
  {
    assert a & (0 - (b & 1)) == Pick(Low(b), a);
  }

  lemma XTimeMasked(a: byte)
    ensures (a << 1) ^ (0x1b & (0 - (a >> 7))) == XTime(a)
  {}

  method GfInv(a: byte) returns (result: byte)
    ensures result == Inv(a)
  {
    hide Mul, Pow;
    result := 1;
    var base, exp: nat := a, 254;
    OneTimes(Pow(a, 254));
    while exp > 0
      invariant Mul(result, Pow(base, exp)) == Pow(a, 254)
    {
      PowSquare(base, exp / 2);
      if exp % 2 == 1 {
        PowStep(base, exp - 1);
        MulComm(Pow(base, exp - 1), base);
        MulAssoc(result, base, Pow(base, exp - 1));
        result := GfMul(result, base);
      }
      base := GfMul(base, base);
      exp := exp / 2;
    }
    PowZero(base);
    MulComm(result, 1);
    OneTimes(result);
  }

  lemma PowZero(a: byte)
    ensures Pow(a, 0) == 1
  {}
}
