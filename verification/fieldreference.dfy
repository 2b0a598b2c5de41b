/** The reference for field multiplication: the remainder of the carry-less product modulo x^8 + x^4 + x^3 + x + 1. */
module FieldReference {
  import opened Gf256

  /** Binary polynomials of degree below 16, one bit a coefficient. */
  type binpoly = bv16

  const MODULUS: binpoly := 0x11b

  function Wide(a: byte): binpoly { a as bv16 }

  function Sum(u: binpoly, v: binpoly): binpoly { u ^ v }

  function TimesX(u: binpoly): binpoly { u << 1 }

  function Term(p: bool, u: binpoly): binpoly { if p then u else 0 }

  /** The product of `u` with the polynomial of the low `n` bits of `b`, not reduced. */
  function Product(u: binpoly, b: byte, n: nat): binpoly
    decreases n
  {
    if n == 0 then 0 else Sum(Term(Low(b), u), Product(TimesX(u), Shr(b), n - 1))
  }

  ghost predicate Multiple(u: binpoly) {
    exists q: byte :: u == Product(MODULUS, q, 8)
  }

  // ----- the algebra of products -----

  lemma SumLaws(u: binpoly, v: binpoly)
    ensures Sum(u, v) == Sum(v, u) && Sum(u, u) == 0 && Sum(u, 0) == u && Sum(0, u) == u
  {}

  lemma SumAssoc(u: binpoly, v: binpoly, w: binpoly)
    ensures Sum(Sum(u, v), w) == Sum(u, Sum(v, w))
  {}

  lemma SumSwap(a: binpoly, b: binpoly, c: binpoly, d: binpoly)
    ensures Sum(Sum(a, b), Sum(c, d)) == Sum(Sum(a, c), Sum(b, d))
  {
    hide Sum;
    SumAssoc(a, b, Sum(c, d));
    SumAssoc(b, c, d);
    SumLaws(b, c);
    SumAssoc(c, b, d);
    SumAssoc(a, c, Sum(b, d));
  }

  lemma TimesXSum(u: binpoly, v: binpoly)
    ensures TimesX(Sum(u, v)) == Sum(TimesX(u), TimesX(v))
  {}

  lemma TermSum(p: bool, u: binpoly, v: binpoly)
    ensures Term(p, Sum(u, v)) == Sum(Term(p, u), Term(p, v))
  {}

  lemma TermXor(p: bool, q: bool, u: binpoly)
    ensures Term(p != q, u) == Sum(Term(p, u), Term(q, u))
  {
    hide Sum;
    SumLaws(u, u);
    SumLaws(0, u);
  }

  lemma {:induction false} ProductAddLeft(u: binpoly, v: binpoly, b: byte, n: nat)
    ensures Product(Sum(u, v), b, n) == Sum(Product(u, b, n), Product(v, b, n))
    decreases n
  {
    hide Sum, TimesX, Term, Shr, Low;
    if n == 0 {
      SumLaws(0, 0);
    } else {
      TimesXSum(u, v);
      TermSum(Low(b), u, v);
      ProductAddLeft(TimesX(u), TimesX(v), Shr(b), n - 1);
      SumSwap(Term(Low(b), u), Term(Low(b), v), Product(TimesX(u), Shr(b), n - 1), Product(TimesX(v), Shr(b), n - 1));
    }
  }

  lemma {:induction false} ProductAddRight(u: binpoly, b: byte, c: byte, n: nat)
    ensures Product(u, Add(b, c), n) == Sum(Product(u, b, n), Product(u, c, n))
    decreases n
  {
    if n == 0 {
      SumLaws(0, 0);
    } else {
      hide Sum, TimesX, Term, Shr, Low, Add;
      BitsOfSum(b, c);
      TermXor(Low(b), Low(c), u);
      ProductAddRight(TimesX(u), Shr(b), Shr(c), n - 1);
      SumSwap(Term(Low(b), u), Term(Low(c), u), Product(TimesX(u), Shr(b), n - 1), Product(TimesX(u), Shr(c), n - 1));
    }
  }

  lemma {:induction false} ProductOfZero(b: byte, n: nat)
    ensures Product(0, b, n) == 0
    decreases n
  {
    if n > 0 { ProductOfZero(Shr(b), n - 1); }
  }

  // ----- multiples of the modulus -----

  lemma MultipleSum(u: binpoly, v: binpoly)
    requires Multiple(u) && Multiple(v)
    ensures Multiple(Sum(u, v))
  {
    hide Product, Sum, Add;
    var q: byte :| u == Product(MODULUS, q, 8);
    var r: byte :| v == Product(MODULUS, r, 8);
    ProductAddRight(MODULUS, q, r, 8);
  }

  lemma MultipleZero()
    ensures Multiple(0)
  {
    assert Product(MODULUS, 0, 8) == 0;
  }

  function Shifted(j: nat): binpoly { if j == 0 then MODULUS else TimesX(Shifted(j - 1)) }

  lemma LowShifts()
    ensures Product(MODULUS, 1, 8) == 0x11b && Product(MODULUS, 2, 8) == 0x236
    ensures Product(MODULUS, 4, 8) == 0x46c && Product(MODULUS, 8, 8) == 0x8d8
  {}

  lemma HighShifts()
    ensures Product(MODULUS, 16, 8) == 0x11b0 && Product(MODULUS, 32, 8) == 0x2360
    ensures Product(MODULUS, 64, 8) == 0x46c0 && Product(MODULUS, 128, 8) == 0x8d80
  {}

  lemma ShiftedValues()
    ensures Shifted(0) == 0x11b && Shifted(1) == 0x236 && Shifted(2) == 0x46c && Shifted(3) == 0x8d8
    ensures Shifted(4) == 0x11b0 && Shifted(5) == 0x2360 && Shifted(6) == 0x46c0 && Shifted(7) == 0x8d80
  {}

  lemma MultipleShifted(j: nat)
    requires j < 8
    ensures Multiple(Shifted(j))
  {
    hide Product, Shifted;
    LowShifts();
    HighShifts();
    ShiftedValues();
    assert j == 0 || j == 1 || j == 2 || j == 3 || j == 4 || j == 5 || j == 6 || j == 7;
  }

  lemma {:induction false} MultipleProduct(j: nat, b: byte, n: nat)
    requires j + n <= 8
    ensures Multiple(Product(Shifted(j), b, n))
    decreases n
  {
    hide Sum, TimesX, Term, Shr, Low, Multiple;
    MultipleZero();
    if n > 0 {
      MultipleProduct(j + 1, Shr(b), n - 1);
      MultipleShifted(j);
      TermCases(Low(b), Shifted(j));
      MultipleSum(Term(Low(b), Shifted(j)), Product(Shifted(j + 1), Shr(b), n - 1));
    }
  }

  lemma TermCases(p: bool, u: binpoly)
    ensures Term(p, u) == 0 || Term(p, u) == u
  {}

  // ----- the two multiplications -----

  lemma WideLaws(a: byte, b: byte, p: bool)
    ensures Wide(Add(a, b)) == Sum(Wide(a), Wide(b)) && Wide(Pick(p, a)) == Term(p, Wide(a)) && Wide(0) == 0
  {}

  lemma WideXTime(a: byte)
    ensures TimesX(Wide(a)) == Sum(Wide(XTime(a)), Term(High(a), MODULUS))
  {}

  lemma {:induction false} Congruent(a: byte, b: byte, n: nat)
    requires n <= 8
    ensures Multiple(Sum(Product(Wide(a), b, n), Wide(MulBits(a, b, n))))
    decreases n
  {
    WideLaws(0, 0, false);
    SumLaws(0, 0);
    MultipleZero();
    if n > 0 {
      hide Sum, TimesX, Term, Shr, Low, High, Multiple, XTime, Add, Pick, Wide;
      var a', b', m := XTime(a), Shr(b), n - 1;
      var rest, reduced := Product(Wide(a'), b', m), Wide(MulBits(a', b', m));
      var carry, first := Product(Term(High(a), MODULUS), b', m), Term(Low(b), Wide(a));
      Congruent(a', b', m);
      WideXTime(a);
      ProductAddLeft(Wide(a'), Term(High(a), MODULUS), b', m);
      WideLaws(Pick(Low(b), a), MulBits(a', b', m), false);
      WideLaws(a, 0, Low(b));
      assert Multiple(carry) by {
        TermCases(High(a), MODULUS);
        MultipleProduct(0, b', m);
        ProductOfZero(b', m);
      }
      // (first + (rest + carry)) + (first + reduced) == (rest + reduced) + carry
      SumSwap(first, Sum(rest, carry), first, reduced);
      SumLaws(first, first);
      SumLaws(Sum(Sum(rest, carry), reduced), 0);
      SumAssoc(rest, carry, reduced);
      SumLaws(carry, reduced);
      SumAssoc(rest, reduced, carry);
      MultipleSum(Sum(rest, reduced), carry);
    }
  }

  /** No multiple of the modulus but 0 has degree below 8. */
  lemma SmallMultiple(d: byte)
    requires Multiple(Wide(d))
    ensures d == 0
  {
    var q: byte :| Wide(d) == Product(MODULUS, q, 8);
    TopBit(q);
  }

  lemma TopBit(q: byte)
    requires Product(MODULUS, q, 8) < 0x100
    ensures q == 0 && Product(MODULUS, q, 8) == 0
  {
    HighNibble(q);
    LowNibble(q);
    hide Product;
    assert Product(MODULUS, 0, 8) == 0 by { ProductByZero(); }
  }

  lemma ProductByZero()
    ensures Product(MODULUS, 0, 8) == 0
  {}

  lemma HighNibble(q: byte)
    requires Product(MODULUS, q, 8) < 0x1000
    ensures q < 0x10
  {}

  lemma LowNibble(q: byte)
    requires q < 0x10 && Product(MODULUS, q, 8) < 0x100
    ensures q == 0
  {}

  /** The code's product is the one remainder of the carry-less product modulo the field polynomial. */
  lemma MulIsRemainder(a: byte, b: byte, r: byte)
    ensures r == Mul(a, b) <==> Multiple(Sum(Product(Wide(a), b, 8), Wide(r)))
  {
    MulUnfold(a, b);
    hide Sum, Product, Wide, Mul, MulBits, Add, Multiple;
    var u, m := Product(Wide(a), b, 8), Mul(a, b);
    Congruent(a, b, 8);
    if Multiple(Sum(u, Wide(r))) {
      MultipleSum(Sum(u, Wide(r)), Sum(u, Wide(m)));
      SumSwap(u, Wide(r), u, Wide(m));
      SumLaws(u, u);
      SumLaws(Sum(Wide(r), Wide(m)), 0);
      WideLaws(r, m, false);
      SmallMultiple(Add(r, m));
      AddLaws(r, m);
    }
  }
}
