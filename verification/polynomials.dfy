/** Polynomials over GF(2^8), as coefficient lists with the constant term first. */
module Polynomials {
  import opened Gf256

  type Poly = seq<byte>

  /** The value at `x`, by Horner's rule. */
  function Eval(c: Poly, x: byte): byte {
    if c == [] then 0 else Add(Mul(Eval(c[1..], x), x), c[0])
  }

  ghost predicate Distinct<T(!new)>(xs: seq<T>) {
    forall i, j :: 0 <= i < j < |xs| ==> xs[i] != xs[j]
  }

  ghost predicate AllZero(c: Poly) {
    forall i :: 0 <= i < |c| ==> c[i] == 0
  }

  /** `p` takes the values `ys` at `xs`. */
  ghost predicate Fits(p: Poly, xs: seq<byte>, ys: seq<byte>) {
    |xs| == |ys| && forall i :: 0 <= i < |xs| ==> Eval(p, xs[i]) == ys[i]
  }

  // ----- ring identities used below -----

  lemma Distribute(a: byte, b: byte, c: byte)
    ensures Mul(a, Add(b, c)) == Add(Mul(a, b), Mul(a, c))
    ensures Mul(Add(b, c), a) == Add(Mul(b, a), Mul(c, a))
  {
    hide Add, Mul;
    MulAddLeft(b, c, a);
    MulComm(a, Add(b, c));
    MulComm(a, b);
    MulComm(a, c);
  }

  lemma MulSwap(a: byte, b: byte, c: byte)
    ensures Mul(Mul(a, b), c) == Mul(Mul(a, c), b)
  {
    hide Mul;
    MulAssoc(a, b, c);
    MulComm(b, c);
    MulAssoc(a, c, b);
  }

  lemma AddCancel(a: byte, b: byte, c: byte)
    requires Add(a, b) == Add(a, c)
    ensures b == c
  {}

  lemma MulCancel(a: byte, b: byte, c: byte)
    requires a != 0 && Mul(a, b) == Mul(a, c)
    ensures b == c
  {
    hide Add, Mul;
    Distribute(a, b, c);
    AddLaws(Mul(a, b), Mul(a, c));
    NoZeroDivisors(a, Add(b, c));
    AddLaws(b, c);
  }

  // ----- coefficient arithmetic -----

  function AddPoly(p: Poly, q: Poly): (r: Poly)
    requires |p| == |q|
    ensures |r| == |p|
  {
    if p == [] then [] else [Add(p[0], q[0])] + AddPoly(p[1..], q[1..])
  }

  function Scale(a: byte, p: Poly): (r: Poly)
    ensures |r| == |p|
  {
    if p == [] then [] else [Mul(a, p[0])] + Scale(a, p[1..])
  }

  /** The product of `p` and the monic linear factor with root `r`. */
  function MulLinear(p: Poly, r: byte): (c: Poly)
    ensures |c| == |p| + 1
  {
    AddPoly([0] + p, Scale(r, p) + [0])
  }

  lemma {:induction false} EvalAddPoly(p: Poly, q: Poly, x: byte)
    requires |p| == |q|
    ensures Eval(AddPoly(p, q), x) == Add(Eval(p, x), Eval(q, x))
  {
    hide Add, Mul;
    if p == [] {
      AddLaws(0, 0);
    } else {
      EvalAddPoly(p[1..], q[1..], x);
      Distribute(x, Eval(p[1..], x), Eval(q[1..], x));
      AddSwap(Mul(Eval(p[1..], x), x), Mul(Eval(q[1..], x), x), p[0], q[0]);
    }
  }

  lemma {:induction false} EvalScale(a: byte, p: Poly, x: byte)
    ensures Eval(Scale(a, p), x) == Mul(a, Eval(p, x))
  {
    hide Add, Mul;
    if p == [] {
      MulZero(a);
    } else {
      EvalScale(a, p[1..], x);
      MulAssoc(a, Eval(p[1..], x), x);
      Distribute(a, Mul(Eval(p[1..], x), x), p[0]);
    }
  }

  lemma {:induction false} EvalPadded(p: Poly, x: byte)
    ensures Eval(p + [0], x) == Eval(p, x)
  {
    hide Add, Mul;
    if p == [] {
      MulZero(x);
      AddLaws(0, 0);
      assert Eval([0], x) == Add(Mul(Eval([], x), x), 0);
    } else {
      assert (p + [0])[1..] == p[1..] + [0];
      EvalPadded(p[1..], x);
    }
  }

  lemma EvalMulLinear(p: Poly, r: byte, x: byte)
    ensures Eval(MulLinear(p, r), x) == Mul(Eval(p, x), Add(x, r))
  {
    hide Add, Mul;
    EvalAddPoly([0] + p, Scale(r, p) + [0], x);
    assert ([0] + p)[1..] == p;
    AddLaws(Mul(Eval(p, x), x), 0);
    EvalPadded(Scale(r, p), x);
    EvalScale(r, p, x);
    MulComm(r, Eval(p, x));
    Distribute(Eval(p, x), x, r);
  }

  lemma EvalAtZero(p: Poly)
    ensures Eval(p, 0) == if p == [] then 0 else p[0]
  {
    hide Add, Mul;
    if p != [] {
      MulZero(Eval(p[1..], 0));
      AddLaws(p[0], 0);
    }
  }

  /** The sum of the coefficients times the powers of `x`, from the constant term on. */
  function PowerSum(p: Poly, x: byte, n: nat): byte
    requires n <= |p|
  {
    if n == 0 then 0 else Add(PowerSum(p, x, n - 1), Mul(p[n - 1], Pow(x, n - 1)))
  }

  lemma {:induction false} PowerSumStep(p: Poly, x: byte, n: nat)
    requires 0 < n <= |p|
    ensures PowerSum(p, x, n) == Add(Mul(PowerSum(p[1..], x, n - 1), x), p[0])
  {
    hide Add, Mul;
    if n == 1 {
      MulComm(p[0], 1);
      OneTimes(p[0]);
      MulComm(0, x);
      MulZero(x);
      assert Mul(p[0], Pow(x, 0)) == p[0];
    } else {
      PowerSumStep(p, x, n - 1);
      var before, last := PowerSum(p[1..], x, n - 2), Mul(p[n - 1], Pow(x, n - 2));
      Distribute(x, before, last);
      MulAssoc(p[n - 1], Pow(x, n - 2), x);
      AddAssoc(Mul(before, x), p[0], Mul(last, x));
      AddLaws(p[0], Mul(last, x));
      AddAssoc(Mul(before, x), Mul(last, x), p[0]);
    }
  }

  /** Horner's rule computes that sum. */
  lemma {:induction false} EvalIsPowerSum(p: Poly, x: byte)
    ensures Eval(p, x) == PowerSum(p, x, |p|)
  {
    hide Add, Mul;
    if p != [] {
      EvalIsPowerSum(p[1..], x);
      PowerSumStep(p, x, |p|);
    }
  }

  // ----- the factor theorem and the root bound -----

  /** Synthetic division by the linear factor with root `r`: the partial values of Horner's rule. */
  function Quotient(c: Poly, r: byte): (q: Poly)
    ensures |q| == if c == [] then 0 else |c| - 1
  {
    if |c| <= 1 then [] else [Eval(c[1..], r)] + Quotient(c[1..], r)
  }

  lemma {:induction false} FactorTheorem(c: Poly, r: byte, x: byte)
    ensures Eval(c, x) == Add(Mul(Eval(Quotient(c, r), x), Add(x, r)), Eval(c, r))
  {
    hide Add, Mul;
    if |c| <= 1 {
      MulZero(Add(x, r));
      MulZero(x);
      MulZero(r);
      AddLaws(Eval(c, r), 0);
      assert c != [] ==> c[1..] == [];
    } else {
      var t, d := c[1..], Add(x, r);
      var q, tr := Eval(Quotient(t, r), x), Eval(t, r);
      FactorTheorem(t, r, x);
      // Eval(c, x) == (q * d + tr) * x + c[0]
      Distribute(x, Mul(q, d), tr);
      MulSwap(q, d, x);
      // Eval(Quotient(c, r), x) * d == (q * x + tr) * d
      assert Quotient(c, r)[1..] == Quotient(t, r);
      Distribute(d, Mul(q, x), tr);
      Distribute(tr, x, r);
      var qxd, trx, trr := Mul(Mul(q, x), d), Mul(tr, x), Mul(tr, r);
      assert Eval(c, x) == Add(Add(qxd, trx), c[0]);
      assert Eval(c, r) == Add(trr, c[0]);
      AddAssoc(qxd, trx, trr);
      AddAssoc(Add(qxd, trx), trr, Add(trr, c[0]));
      AddAssoc(trr, trr, c[0]);
      AddLaws(trr, trr);
      AddLaws(0, c[0]);
      AddLaws(c[0], 0);
    }
  }

  lemma {:induction false} QuotientZero(c: Poly, r: byte)
    requires AllZero(Quotient(c, r)) && Eval(c, r) == 0
    ensures AllZero(c)
  {
    hide Add, Mul;
    if c == [] {
    } else {
      assert Eval(c[1..], r) == 0 by {
        if |c| > 1 { assert Quotient(c, r)[0] == 0; }
      }
      MulZero(r);
      AddLaws(0, c[0]);
      assert AllZero(Quotient(c[1..], r)) by {
        if |c| > 1 { assert Quotient(c, r)[1..] == Quotient(c[1..], r); }
      }
      QuotientZero(c[1..], r);
      assert c == [c[0]] + c[1..];
    }
  }

  /** A polynomial with fewer than |xs| + 1 coefficients and |xs| distinct roots is zero. */
  lemma {:induction false} RootBound(c: Poly, xs: seq<byte>)
    requires |c| <= |xs| && Distinct(xs)
    requires forall i :: 0 <= i < |xs| ==> Eval(c, xs[i]) == 0
    ensures AllZero(c)
    decreases |xs|
  {
    if c == [] {
    } else {
      hide Add, Mul, AllZero, Eval, Quotient;
      var m := |xs| - 1;
      var r, rest := xs[m], xs[..m];
      var q := Quotient(c, r);
      forall i | 0 <= i < m
        ensures Eval(q, rest[i]) == 0
      {
        FactorTheorem(c, r, xs[i]);
        AddLaws(Mul(Eval(q, xs[i]), Add(xs[i], r)), 0);
        AddLaws(xs[i], r);
        NoZeroDivisors(Eval(q, xs[i]), Add(xs[i], r));
      }
      RootBound(q, rest);
      QuotientZero(c, r);
    }
  }

  lemma {:induction false} AddPolyZero(p: Poly, q: Poly)
    requires |p| == |q| && AllZero(AddPoly(p, q))
    ensures p == q
  {
    if p == [] {
    } else {
      var s := AddPoly(p, q);
      assert s[0] == 0 && s[1..] == AddPoly(p[1..], q[1..]);
      AddLaws(p[0], q[0]);
      AddPolyZero(p[1..], q[1..]);
      assert p == [p[0]] + p[1..] && q == [q[0]] + q[1..];
    }
  }

  /** Two polynomials of the same length that agree at that many distinct points are the same. */
  lemma UniqueFit(p: Poly, q: Poly, xs: seq<byte>, ys: seq<byte>)
    requires |p| == |q| <= |xs| && Distinct(xs)
    requires Fits(p, xs, ys) && Fits(q, xs, ys)
    ensures p == q
  {
    hide Add, Mul;
    forall i | 0 <= i < |xs|
      ensures Eval(AddPoly(p, q), xs[i]) == 0
    {
      EvalAddPoly(p, q, xs[i]);
      AddLaws(ys[i], ys[i]);
    }
    RootBound(AddPoly(p, q), xs);
    AddPolyZero(p, q);
  }

  // ----- existence of a fit -----

  /** The monic polynomial whose roots are exactly `xs`. */
  function Vanishing(xs: seq<byte>): (c: Poly)
    ensures |c| == |xs| + 1
  {
    if xs == [] then [1] else MulLinear(Vanishing(xs[..|xs| - 1]), xs[|xs| - 1])
  }

  lemma {:induction false} VanishingRoots(xs: seq<byte>, x: byte)
    ensures Eval(Vanishing(xs), x) == 0 <==> x in xs
  {
    hide Add, Mul;
    if xs == [] {
      assert Eval([1], x) == Add(Mul(Eval([], x), x), 1);
      MulZero(x);
      AddLaws(0, 1);
    } else {
      var m := |xs| - 1;
      EvalMulLinear(Vanishing(xs[..m]), xs[m], x);
      VanishingRoots(xs[..m], x);
      NoZeroDivisors(Eval(Vanishing(xs[..m]), x), Add(x, xs[m]));
      AddLaws(x, xs[m]);
      assert xs == xs[..m] + [xs[m]];
    }
  }

  /** Newton's interpolant: a polynomial of length |xs| that takes the values `ys` at `xs`. */
  function Interpolant(xs: seq<byte>, ys: seq<byte>): (p: Poly)
    requires |xs| == |ys|
    ensures |p| == |xs|
  {
    if xs == [] then [] else
      var m := |xs| - 1;
      var p, v := Interpolant(xs[..m], ys[..m]), Vanishing(xs[..m]);
      var gap := Add(ys[m], Eval(p, xs[m]));
      AddPoly(p + [0], Scale(Mul(gap, Inv(Eval(v, xs[m]))), v))
  }

  /** Adding a multiple of a polynomial changes nothing at its roots. */
  lemma NewtonKeeps(p: Poly, v: Poly, a: byte, x: byte)
    requires |v| == |p| + 1 && Eval(v, x) == 0
    ensures Eval(AddPoly(p + [0], Scale(a, v)), x) == Eval(p, x)
  {
    hide Add, Mul, Eval;
    EvalAddPoly(p + [0], Scale(a, v), x);
    EvalPadded(p, x);
    EvalScale(a, v, x);
    MulZero(a);
    AddLaws(Eval(p, x), 0);
  }

  /** And the right multiple reaches any value elsewhere. */
  lemma NewtonReaches(p: Poly, v: Poly, y: byte, x: byte)
    requires |v| == |p| + 1 && Eval(v, x) != 0
    ensures Eval(AddPoly(p + [0], Scale(Mul(Add(y, Eval(p, x)), Inv(Eval(v, x))), v)), x) == y
  {
    hide Add, Mul, Inv, Eval;
    var gap, d := Add(y, Eval(p, x)), Eval(v, x);
    EvalAddPoly(p + [0], Scale(Mul(gap, Inv(d)), v), x);
    EvalPadded(p, x);
    EvalScale(Mul(gap, Inv(d)), v, x);
    MulAssoc(gap, Inv(d), d);
    InvCorrect(d);
    MulComm(Inv(d), d);
    MulComm(gap, 1);
    OneTimes(gap);
    AddLaws(y, Eval(p, x));
    AddLaws(Eval(p, x), gap);
  }

  lemma {:induction false} InterpolantFits(xs: seq<byte>, ys: seq<byte>)
    requires |xs| == |ys| && Distinct(xs)
    ensures Fits(Interpolant(xs, ys), xs, ys)
  {
    hide Add, Mul, Inv, Eval, Vanishing;
    if xs != [] {
      var m := |xs| - 1;
      var p, v := Interpolant(xs[..m], ys[..m]), Vanishing(xs[..m]);
      var a := Mul(Add(ys[m], Eval(p, xs[m])), Inv(Eval(v, xs[m])));
      InterpolantFits(xs[..m], ys[..m]);
      forall i | 0 <= i <= m
        ensures Eval(Interpolant(xs, ys), xs[i]) == ys[i]
      {
        VanishingRoots(xs[..m], xs[i]);
        if i < m {
          assert xs[i] in xs[..m];
          NewtonKeeps(p, v, a, xs[i]);
        } else {
          NewtonReaches(p, v, ys[m], xs[m]);
        }
      }
    }
  }

  // ----- Lagrange interpolation at 0 -----

  /** The product of the first `m` of `xs`, leaving out position `i`. */
  function Numerator(xs: seq<byte>, i: nat, m: nat): byte
    requires m <= |xs|
  {
    if m == 0 then 1
    else if m - 1 == i then Numerator(xs, i, m - 1)
    else Mul(Numerator(xs, i, m - 1), xs[m - 1])
  }

  /** The product of the differences of xs[i] with the first `m` of `xs`, leaving out position `i`. */
  function Denominator(xs: seq<byte>, i: nat, m: nat): byte
    requires i < |xs| && m <= |xs|
  {
    if m == 0 then 1
    else if m - 1 == i then Denominator(xs, i, m - 1)
    else Mul(Denominator(xs, i, m - 1), Add(xs[i], xs[m - 1]))
  }

  /** The Lagrange basis polynomial of point `i`, evaluated at 0. */
  function Weight(xs: seq<byte>, i: nat): byte
    requires i < |xs|
  {
    Mul(Numerator(xs, i, |xs|), Inv(Denominator(xs, i, |xs|)))
  }

  /** The Lagrange sum at 0 over the first `m` points. */
  function LagrangeSum(xs: seq<byte>, ys: seq<byte>, m: nat): byte
    requires m <= |xs| == |ys|
  {
    if m == 0 then 0 else Add(LagrangeSum(xs, ys, m - 1), Mul(ys[m - 1], Weight(xs, m - 1)))
  }

  function LagrangeAtZero(xs: seq<byte>, ys: seq<byte>): byte
    requires |xs| == |ys|
  {
    LagrangeSum(xs, ys, |xs|)
  }

  lemma {:induction false} ProductsOfPrefix(xs: seq<byte>, i: nat, m: nat)
    requires i < |xs| - 1 && m < |xs|
    ensures Numerator(xs[..|xs| - 1], i, m) == Numerator(xs, i, m)
    ensures Denominator(xs[..|xs| - 1], i, m) == Denominator(xs, i, m)
  {
    hide Add, Mul;
    if m > 0 { ProductsOfPrefix(xs, i, m - 1); }
  }

  lemma {:induction false} DenominatorNonzero(xs: seq<byte>, i: nat, m: nat)
    requires Distinct(xs) && i < |xs| && m <= |xs|
    ensures Denominator(xs, i, m) != 0
  {
    hide Add, Mul;
    if m > 0 {
      DenominatorNonzero(xs, i, m - 1);
      AddLaws(xs[i], xs[m - 1]);
      NoZeroDivisors(Denominator(xs, i, m - 1), Add(xs[i], xs[m - 1]));
    }
  }

  /** Adding the point with coordinate r multiplies the weight of point i by r / (xs[i] - r). */
  lemma WeightStep(xs: seq<byte>, i: nat)
    requires Distinct(xs) && i < |xs| - 1
    ensures Mul(Add(xs[i], xs[|xs| - 1]), Weight(xs, i)) == Mul(xs[|xs| - 1], Weight(xs[..|xs| - 1], i))
  {
    hide Add, Mul, Inv;
    var m := |xs| - 1;
    var r, d := xs[m], Add(xs[i], xs[m]);
    var num, den := Numerator(xs, i, m), Denominator(xs, i, m);
    ProductsOfPrefix(xs, i, m);
    DenominatorNonzero(xs, i, m);
    AddLaws(xs[i], r);
    hide Numerator, Denominator, Distinct;
    InvOfProduct(den, d);
    assert Weight(xs, i) == Mul(Mul(num, r), Mul(Inv(den), Inv(d))) by { ProductSteps(xs, i); }
    // d * ((num * r) * (1/den * 1/d)) == r * (num * 1/den)
    MulComm(num, r);
    MulAssoc(r, num, Mul(Inv(den), Inv(d)));
    MulAssoc(num, Inv(den), Inv(d));
    var w := Mul(num, Inv(den));
    MulAssoc(r, w, Inv(d));
    MulComm(d, Mul(Mul(r, w), Inv(d)));
    MulAssoc(Mul(r, w), Inv(d), d);
    InvCorrect(d);
    MulComm(Inv(d), d);
    MulComm(Mul(r, w), 1);
    OneTimes(Mul(r, w));
  }

  lemma ProductSteps(xs: seq<byte>, i: nat)
    requires i < |xs| - 1
    ensures Numerator(xs, i, |xs|) == Mul(Numerator(xs, i, |xs| - 1), xs[|xs| - 1])
    ensures Denominator(xs, i, |xs|) == Mul(Denominator(xs, i, |xs| - 1), Add(xs[i], xs[|xs| - 1]))
  {
    hide Add, Mul;
  }

  lemma InvOfProduct(a: byte, b: byte)
    requires a != 0 && b != 0
    ensures Inv(Mul(a, b)) == Mul(Inv(a), Inv(b))
  {
    hide Mul, Inv, Add;
    var ab := Mul(a, b);
    NoZeroDivisors(a, b);
    InvCorrect(ab);
    InvCorrect(a);
    InvCorrect(b);
    MulComm(a, b);
    MulAssoc(b, a, Mul(Inv(a), Inv(b)));
    MulAssoc(a, Inv(a), Inv(b));
    OneTimes(Inv(b));
    MulCancel(ab, Inv(ab), Mul(Inv(a), Inv(b)));
  }

  function Ones(n: nat): (s: seq<byte>)
    ensures |s| == n && forall i :: 0 <= i < n ==> s[i] == 1
  {
    seq(n, i => 1)
  }

  function Evals(p: Poly, xs: seq<byte>): (ys: seq<byte>)
    ensures |ys| == |xs|
    ensures forall i :: 0 <= i < |xs| ==> ys[i] == Eval(p, xs[i])
  {
    seq(|xs|, i requires 0 <= i < |xs| => Eval(p, xs[i]))
  }

  /** Splitting every value p(x) as q(x) * (x - r) + p(r) splits the sum accordingly. */
  lemma {:induction false} SumByQuotient(p: Poly, xs: seq<byte>, m: nat)
    requires Distinct(xs) && 0 < |xs| && m < |xs|
    ensures var r, rest := xs[|xs| - 1], xs[..|xs| - 1];
            LagrangeSum(xs, Evals(p, xs), m)
            == Add(Mul(r, LagrangeSum(rest, Evals(Quotient(p, r), rest), m)),
                   Mul(Eval(p, r), LagrangeSum(xs, Ones(|xs|), m)))
  {
    hide Add, Mul, Inv, Eval, Quotient, Weight;
    var r, rest := xs[|xs| - 1], xs[..|xs| - 1];
    var pr, q := Eval(p, r), Quotient(p, r);
    var qs := Evals(q, rest);
    if m == 0 {
      MulZero(r);
      MulZero(pr);
      AddLaws(0, 0);
    } else {
      var i := m - 1;
      SumByQuotient(p, xs, i);
      var w, w', y := Weight(xs, i), Weight(rest, i), Eval(q, xs[i]);
      var d := Add(xs[i], r);
      // p(x) * w == (q(x) * d + p(r)) * w == r * (q(x) * w') + p(r) * w
      FactorTheorem(p, r, xs[i]);
      Distribute(w, Mul(y, d), pr);
      MulAssoc(y, d, w);
      WeightStep(xs, i);
      MulAssoc(y, r, w');
      MulComm(y, r);
      MulAssoc(r, y, w');
      OneTimes(w);
      var a, b := LagrangeSum(rest, qs, i), LagrangeSum(xs, Ones(|xs|), i);
      Distribute(r, a, Mul(y, w'));
      Distribute(pr, b, w);
      AddSwap(Mul(r, a), Mul(pr, b), Mul(r, Mul(y, w')), Mul(pr, w));
    }
  }

  lemma LagrangeStep(p: Poly, xs: seq<byte>)
    requires Distinct(xs) && 0 < |xs|
    ensures var r, rest := xs[|xs| - 1], xs[..|xs| - 1];
            LagrangeAtZero(xs, Evals(p, xs))
            == Add(Mul(r, LagrangeAtZero(rest, Evals(Quotient(p, r), rest))),
                   Mul(Eval(p, r), LagrangeAtZero(xs, Ones(|xs|))))
  {
    hide Add, Mul, Inv, Eval, Quotient, Weight;
    var m := |xs| - 1;
    var r, rest := xs[m], xs[..m];
    SumByQuotient(p, xs, m);
    var a := Mul(r, LagrangeAtZero(rest, Evals(Quotient(p, r), rest)));
    var b, w, pr := LagrangeSum(xs, Ones(|xs|), m), Weight(xs, m), Eval(p, r);
    AddAssoc(a, Mul(pr, b), Mul(pr, w));
    OneTimes(w);
    Distribute(pr, b, w);
  }

  lemma {:induction false} VanishingProducts(xs: seq<byte>, k: nat)
    requires k < |xs|
    ensures Eval(Vanishing(xs[..k]), 0) == Numerator(xs, |xs| - 1, k)
    ensures Eval(Vanishing(xs[..k]), xs[|xs| - 1]) == Denominator(xs, |xs| - 1, k)
  {
    hide Add, Mul;
    var r := xs[|xs| - 1];
    if k == 0 {
      MulZero(r);
      MulZero(0);
      AddLaws(1, 0);
      assert Vanishing(xs[..k]) == [1];
      assert Eval([1], 0) == Add(Mul(Eval([], 0), 0), 1) && Eval([1], r) == Add(Mul(Eval([], r), r), 1);
    } else {
      assert xs[..k][..k - 1] == xs[..k - 1];
      VanishingProducts(xs, k - 1);
      EvalMulLinear(Vanishing(xs[..k - 1]), xs[k - 1], 0);
      EvalMulLinear(Vanishing(xs[..k - 1]), xs[k - 1], r);
      AddLaws(xs[k - 1], 0);
    }
  }

  lemma {:induction false} ZeroTerms(xs: seq<byte>, ys: seq<byte>, m: nat)
    requires m <= |xs| == |ys| && forall i :: 0 <= i < m ==> ys[i] == 0
    ensures LagrangeSum(xs, ys, m) == 0
  {
    hide Add, Mul, Weight;
    if m > 0 {
      ZeroTerms(xs, ys, m - 1);
      MulZero(Weight(xs, m - 1));
      AddLaws(0, 0);
    }
  }

  /** On the polynomial that vanishes at all points but the last, the sum is a single term. */
  lemma LagrangeOfVanishing(xs: seq<byte>)
    requires Distinct(xs) && 0 < |xs|
    ensures var v := Vanishing(xs[..|xs| - 1]); LagrangeAtZero(xs, Evals(v, xs)) == Eval(v, 0)
  {
    hide Add, Mul, Inv, Eval, Vanishing;
    var m := |xs| - 1;
    var r, v := xs[m], Vanishing(xs[..m]);
    var ys := Evals(v, xs);
    forall i | 0 <= i < m
      ensures ys[i] == 0
    {
      VanishingRoots(xs[..m], xs[i]);
      assert xs[i] in xs[..m];
    }
    ZeroTerms(xs, ys, m);
    VanishingProducts(xs, m);
    DenominatorNonzero(xs, m, m);
    var num, den := Numerator(xs, m, m), Denominator(xs, m, m);
    // den * (num * 1/den) == num
    MulComm(num, Inv(den));
    MulAssoc(den, Inv(den), num);
    InvCorrect(den);
    OneTimes(num);
    AddLaws(num, 0);
  }

  /** Lagrange's theorem: the sum at 0 is the value at 0 of every polynomial short enough for the points. */
  lemma {:induction false} LagrangeTheorem(p: Poly, xs: seq<byte>)
    requires Distinct(xs) && |p| <= |xs|
    ensures LagrangeAtZero(xs, Evals(p, xs)) == Eval(p, 0)
    decreases |xs|
  {
    hide Add, Mul, Inv, LagrangeSum;
    if xs == [] {
      assert LagrangeAtZero(xs, Evals(p, xs)) == 0 by { ZeroTerms(xs, Evals(p, xs), 0); }
    } else {
      hide Eval, Vanishing, Quotient, LagrangeAtZero;
      var m := |xs| - 1;
      var r, rest := xs[m], xs[..m];
      var sum := LagrangeAtZero(xs, Ones(|xs|));
      assert sum == 1 by {
        var v := Vanishing(rest);
        LagrangeOfVanishing(xs);
        LagrangeByQuotient(v, xs);
        VanishingRoots(rest, r);
        assert r !in rest;
        AddCancel(Mul(r, Eval(Quotient(v, r), 0)), Mul(Eval(v, r), sum), Eval(v, r));
        MulComm(Eval(v, r), 1);
        OneTimes(Eval(v, r));
        MulCancel(Eval(v, r), sum, 1);
      }
      LagrangeByQuotient(p, xs);
      MulComm(Eval(p, r), 1);
      OneTimes(Eval(p, r));
    }
  }

  /** One step of the induction: the sum against the value at 0, both split by the factor theorem. */
  lemma {:induction false} LagrangeByQuotient(p: Poly, xs: seq<byte>)
    requires Distinct(xs) && 0 < |xs| && |p| <= |xs|
    ensures var r := xs[|xs| - 1];
            var a := Mul(r, Eval(Quotient(p, r), 0));
            && LagrangeAtZero(xs, Evals(p, xs)) == Add(a, Mul(Eval(p, r), LagrangeAtZero(xs, Ones(|xs|))))
            && Eval(p, 0) == Add(a, Eval(p, r))
    decreases |xs|, 0
  {
    hide Add, Mul, Inv, Eval, Quotient, LagrangeAtZero;
    var m := |xs| - 1;
    var r, rest := xs[m], xs[..m];
    var q := Quotient(p, r);
    LagrangeStep(p, xs);
    LagrangeTheorem(q, rest);
    FactorTheorem(p, r, 0);
    AddLaws(r, 0);
    MulComm(Eval(q, 0), r);
  }

  // ----- consequences -----

  /** Whatever the points, the sum at 0 is the value at 0 of the one polynomial through them. */
  lemma LagrangeIsInterpolation(p: Poly, xs: seq<byte>, ys: seq<byte>)
    requires Distinct(xs) && |p| <= |xs| && Fits(p, xs, ys)
    ensures LagrangeAtZero(xs, ys) == Eval(p, 0)
  {
    hide Add, Mul, Inv, LagrangeAtZero, Eval;
    assert ys == Evals(p, xs);
    LagrangeTheorem(p, xs);
  }
}
