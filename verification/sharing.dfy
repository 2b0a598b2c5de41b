/** What splitting and combining mean, byte by byte, and the laws of the scheme. */
module Sharing {
  import opened Gf256
  import opened Polynomials

  // ----- splitting -----

  /** The bytes drawn for one split: for every secret byte the k-1 coefficients above the constant term. */
  type Draws = seq<seq<byte>>

  ghost predicate ValidDraws(draws: Draws, len: nat, k: nat) {
    k >= 1 && |draws| == len && forall b :: 0 <= b < len ==> |draws[b]| == k - 1
  }

  /** The polynomial that hides byte `b` of the secret. */
  function SecretPoly(secret: seq<byte>, draws: Draws, b: nat): (p: Poly)
    requires b < |secret| == |draws|
    ensures |p| == |draws[b]| + 1
  {
    [secret[b]] + draws[b]
  }

  /** The share bytes at coordinate `x`. */
  function ShareBody(secret: seq<byte>, draws: Draws, x: byte): (body: seq<byte>)
    requires |draws| == |secret|
    ensures |body| == |secret|
  {
    seq(|secret|, b requires 0 <= b < |secret| => Eval(SecretPoly(secret, draws, b), x))
  }

  // ----- combining -----

  /** Raw shares: `len` body bytes followed by the coordinate. */
  ghost predicate RawShares(raw: seq<seq<byte>>, len: nat) {
    forall i :: 0 <= i < |raw| ==> |raw[i]| == len + 1
  }

  function Coordinates(raw: seq<seq<byte>>, len: nat): (xs: seq<byte>)
    requires RawShares(raw, len)
    ensures |xs| == |raw|
  {
    seq(|raw|, i requires 0 <= i < |raw| => raw[i][len])
  }

  function Column(raw: seq<seq<byte>>, len: nat, b: nat): (ys: seq<byte>)
    requires RawShares(raw, len) && b < len
    ensures |ys| == |raw|
  {
    seq(|raw|, i requires 0 <= i < |raw| => raw[i][b])
  }

  /** The combined bytes: Lagrange's sum at 0 in every column. */
  function Recover(raw: seq<seq<byte>>, len: nat): (secret: seq<byte>)
    requires RawShares(raw, len)
    ensures |secret| == len
  {
    seq(len, b requires 0 <= b < len => LagrangeAtZero(Coordinates(raw, len), Column(raw, len, b)))
  }

  /** Raw share `i` is the one a split hands out at its coordinate. */
  ghost predicate Genuine(secret: seq<byte>, draws: Draws, share: seq<byte>) {
    |draws| == |secret| && |share| == |secret| + 1 && share[..|secret|] == ShareBody(secret, draws, share[|secret|])
  }

  // ----- the laws -----

  /** Any k or more shares of one split with distinct coordinates, in any order, give the secret back. */
  lemma QuorumRecovers(secret: seq<byte>, draws: Draws, k: nat, raw: seq<seq<byte>>)
    requires ValidDraws(draws, |secret|, k) && k <= |raw|
    requires RawShares(raw, |secret|) && Distinct(Coordinates(raw, |secret|))
    requires forall i :: 0 <= i < |raw| ==> Genuine(secret, draws, raw[i])
    ensures Recover(raw, |secret|) == secret
  {
    hide Add, Mul, Inv, LagrangeAtZero, Eval;
    var len := |secret|;
    var xs := Coordinates(raw, len);
    forall b | 0 <= b < len
      ensures Recover(raw, len)[b] == secret[b]
    {
      var p, ys := SecretPoly(secret, draws, b), Column(raw, len, b);
      forall i | 0 <= i < |xs|
        ensures Eval(p, xs[i]) == ys[i]
      {
        assert raw[i][b] == raw[i][..len][b];
      }
      LagrangeIsInterpolation(p, xs, ys);
      EvalAtZero(p);
    }
  }

  /** Whoever made the points: every combined byte is the value at 0 of the one polynomial through them. */
  lemma RecoverInterpolates(raw: seq<seq<byte>>, len: nat, b: nat, p: Poly)
    requires RawShares(raw, len) && b < len && Distinct(Coordinates(raw, len)) && |p| == |raw|
    ensures var xs, ys := Coordinates(raw, len), Column(raw, len, b);
            && (Fits(p, xs, ys) <==> p == Interpolant(xs, ys))
            && Recover(raw, len)[b] == Eval(Interpolant(xs, ys), 0)
  {
    hide Add, Mul, Inv, LagrangeAtZero, Eval, Interpolant;
    var xs, ys := Coordinates(raw, len), Column(raw, len, b);
    InterpolantFits(xs, ys);
    LagrangeIsInterpolation(Interpolant(xs, ys), xs, ys);
    if Fits(p, xs, ys) { UniqueFit(p, Interpolant(xs, ys), xs, ys); }
  }

  /** The order of the shares does not matter. */
  lemma RecoverPermuted(raw: seq<seq<byte>>, raw': seq<seq<byte>>, len: nat)
    requires RawShares(raw, len) && RawShares(raw', len)
    requires |raw'| == |raw| && forall i :: 0 <= i < |raw'| ==> raw'[i] in raw
    requires Distinct(Coordinates(raw, len)) && Distinct(Coordinates(raw', len))
    ensures Recover(raw, len) == Recover(raw', len)
  {
    hide Add, Mul, Inv, LagrangeAtZero, Eval, Interpolant;
    var xs, xs' := Coordinates(raw, len), Coordinates(raw', len);
    forall b | 0 <= b < len
      ensures Recover(raw, len)[b] == Recover(raw', len)[b]
    {
      var ys, ys' := Column(raw, len, b), Column(raw', len, b);
      var p := Interpolant(xs, ys);
      InterpolantFits(xs, ys);
      forall i | 0 <= i < |xs'|
        ensures Eval(p, xs'[i]) == ys'[i]
      {
        var j :| 0 <= j < |raw| && raw[j] == raw'[i];
        assert xs[j] == xs'[i] && ys[j] == ys'[i];
      }
      LagrangeIsInterpolation(p, xs, ys);
      LagrangeIsInterpolation(p, xs', ys');
    }
  }

  /** Changing one value changes the sum: with nonzero coordinates no point is without influence. */
  lemma EveryPointCounts(xs: seq<byte>, ys: seq<byte>, f: nat, y: byte)
    requires |xs| == |ys| && f < |xs| && Distinct(xs) && 0 !in xs
    ensures LagrangeAtZero(xs, ys) == LagrangeAtZero(xs, ys[f := y]) <==> ys[f] == y
  {
    hide Add, Mul, Inv, LagrangeAtZero, Eval, Interpolant;
    var ys' := ys[f := y];
    if ys[f] == y {
      assert ys' == ys;
    } else if LagrangeAtZero(xs, ys) == LagrangeAtZero(xs, ys') {
      var p, p' := Interpolant(xs, ys), Interpolant(xs, ys');
      InterpolantFits(xs, ys);
      InterpolantFits(xs, ys');
      LagrangeIsInterpolation(p, xs, ys);
      LagrangeIsInterpolation(p', xs, ys');
      var zs, vs := xs[f := 0], ys[f := Eval(p, 0)];
      assert Fits(p, zs, vs) && Fits(p', zs, vs);
      assert Eval(p, xs[f]) == ys[f] && Eval(p', xs[f]) == y;
      UniqueFit(p, p', zs, vs);
    }
  }

  /**
   * All shares genuine but the one at position `f`: byte b comes out right if and only if the odd
   * share agrees there with the polynomial of the split.
   */
  lemma ForgedShareShows(secret: seq<byte>, draws: Draws, k: nat, raw: seq<seq<byte>>, f: nat, b: nat)
    requires ValidDraws(draws, |secret|, k) && k <= |raw| && f < |raw| && b < |secret|
    requires RawShares(raw, |secret|)
    requires forall i :: 0 <= i < |raw| && i != f ==> Genuine(secret, draws, raw[i])
    requires Distinct(Coordinates(raw, |secret|)) && 0 !in Coordinates(raw, |secret|)
    ensures Recover(raw, |secret|)[b] == secret[b]
            <==> raw[f][b] == Eval(SecretPoly(secret, draws, b), raw[f][|secret|])
  {
    hide Add, Mul, Inv, LagrangeAtZero, Eval;
    var len := |secret|;
    var xs, ys, p := Coordinates(raw, len), Column(raw, len, b), SecretPoly(secret, draws, b);
    var honest := ys[f := Eval(p, xs[f])];
    forall i | 0 <= i < |xs|
      ensures Eval(p, xs[i]) == honest[i]
    {
      if i != f { assert raw[i][b] == raw[i][..len][b]; }
    }
    LagrangeIsInterpolation(p, xs, honest);
    EvalAtZero(p);
    EveryPointCounts(xs, ys, f, Eval(p, xs[f]));
  }

  /** How far each share is off the polynomial of the split in byte `b`: 0 where the share is genuine. */
  function Errors(secret: seq<byte>, draws: Draws, raw: seq<seq<byte>>, b: nat): (es: seq<byte>)
    requires RawShares(raw, |secret|) && b < |secret| == |draws|
    ensures |es| == |raw|
  {
    seq(|raw|, i requires 0 <= i < |raw| => Add(raw[i][b], Eval(SecretPoly(secret, draws, b), raw[i][|secret|])))
  }

  lemma {:induction false} LagrangeSumAdds(xs: seq<byte>, us: seq<byte>, vs: seq<byte>, ws: seq<byte>, m: nat)
    requires m <= |xs| == |us| == |vs| == |ws| && forall i :: 0 <= i < |ws| ==> ws[i] == Add(us[i], vs[i])
    ensures LagrangeSum(xs, ws, m) == Add(LagrangeSum(xs, us, m), LagrangeSum(xs, vs, m))
  {
    hide Add, Mul, Weight;
    if m == 0 {
      AddLaws(0, 0);
    } else {
      var w := Weight(xs, m - 1);
      LagrangeSumAdds(xs, us, vs, ws, m - 1);
      Distribute(w, us[m - 1], vs[m - 1]);
      AddSwap(LagrangeSum(xs, us, m - 1), LagrangeSum(xs, vs, m - 1), Mul(us[m - 1], w), Mul(vs[m - 1], w));
    }
  }

  /**
   * However many shares are forged: the byte that comes out is off by exactly the Lagrange sum of the
   * errors, so it is right if and only if the errors cancel.
   */
  lemma ForgedSharesShow(secret: seq<byte>, draws: Draws, k: nat, raw: seq<seq<byte>>, b: nat)
    requires ValidDraws(draws, |secret|, k) && k <= |raw| && b < |secret|
    requires RawShares(raw, |secret|) && Distinct(Coordinates(raw, |secret|))
    ensures var off := LagrangeAtZero(Coordinates(raw, |secret|), Errors(secret, draws, raw, b));
            && Recover(raw, |secret|)[b] == Add(secret[b], off)
            && (Recover(raw, |secret|)[b] == secret[b] <==> off == 0)
  {
    hide Add, Mul, Inv, Eval, LagrangeSum;
    var len := |secret|;
    var xs, ys, p := Coordinates(raw, len), Column(raw, len, b), SecretPoly(secret, draws, b);
    var honest, es := seq(|xs|, i requires 0 <= i < |xs| => Eval(p, xs[i])), Errors(secret, draws, raw, b);
    forall i | 0 <= i < |xs|
      ensures ys[i] == Add(honest[i], es[i])
    {
      AddLaws(ys[i], honest[i]);
      AddLaws(honest[i], es[i]);
    }
    LagrangeSumAdds(xs, honest, es, ys, |xs|);
    LagrangeIsInterpolation(p, xs, honest);
    EvalAtZero(p);
    AddLaws(secret[b], LagrangeAtZero(xs, es));
    AddLaws(LagrangeAtZero(xs, es), secret[b]);
  }

  // ----- threshold secrecy -----

  /** The draws that make `secret` produce the observed bodies at the coordinates `xs`. */
  ghost predicate Explains(secret: seq<byte>, draws: Draws, xs: seq<byte>, bodies: seq<seq<byte>>) {
    && ValidDraws(draws, |secret|, |xs| + 1)
    && |bodies| == |xs|
    && forall i :: 0 <= i < |xs| ==> ShareBody(secret, draws, xs[i]) == bodies[i]
  }

  ghost predicate Observed(xs: seq<byte>, bodies: seq<seq<byte>>, len: nat) {
    && |bodies| == |xs| && Distinct(xs) && 0 !in xs
    && forall i :: 0 <= i < |bodies| ==> |bodies[i]| == len
  }

  function BodyColumn(bodies: seq<seq<byte>>, len: nat, b: nat): (ys: seq<byte>)
    requires b < len && forall i :: 0 <= i < |bodies| ==> |bodies[i]| == len
    ensures |ys| == |bodies|
  {
    seq(|bodies|, i requires 0 <= i < |bodies| => bodies[i][b])
  }

  /** Interpolation through the observations and the candidate secret byte at 0. */
  ghost function Explanation(secret: seq<byte>, xs: seq<byte>, bodies: seq<seq<byte>>): (draws: Draws)
    requires Observed(xs, bodies, |secret|)
    ensures ValidDraws(draws, |secret|, |xs| + 1)
  {
    seq(|secret|, b requires 0 <= b < |secret| =>
      Interpolant([0] + xs, [secret[b]] + BodyColumn(bodies, |secret|, b))[1..])
  }

  lemma ExplainsByteByByte(secret: seq<byte>, draws: Draws, xs: seq<byte>, bodies: seq<seq<byte>>)
    requires Observed(xs, bodies, |secret|) && ValidDraws(draws, |secret|, |xs| + 1)
    ensures Explains(secret, draws, xs, bodies)
            <==> forall b :: 0 <= b < |secret| ==>
                   Fits(SecretPoly(secret, draws, b), xs, BodyColumn(bodies, |secret|, b))
  {
    hide Add, Mul, Eval;
    if Explains(secret, draws, xs, bodies) {
      forall b | 0 <= b < |secret|
        ensures Fits(SecretPoly(secret, draws, b), xs, BodyColumn(bodies, |secret|, b))
      {
        forall i | 0 <= i < |xs|
          ensures Eval(SecretPoly(secret, draws, b), xs[i]) == bodies[i][b]
        {
          assert bodies[i][b] == ShareBody(secret, draws, xs[i])[b];
        }
      }
    }
    if forall b :: 0 <= b < |secret| ==> Fits(SecretPoly(secret, draws, b), xs, BodyColumn(bodies, |secret|, b)) {
      forall i | 0 <= i < |xs|
        ensures ShareBody(secret, draws, xs[i]) == bodies[i]
      {
        forall b | 0 <= b < |secret|
          ensures ShareBody(secret, draws, xs[i])[b] == bodies[i][b]
        {
          assert Fits(SecretPoly(secret, draws, b), xs, BodyColumn(bodies, |secret|, b));
        }
      }
    }
  }

  /** One byte: exactly one choice of upper coefficients joins a constant term to the observed values. */
  lemma OneByteSecrecy(s: byte, rest: seq<byte>, xs: seq<byte>, ys: seq<byte>)
    requires |rest| == |xs| == |ys| && Distinct(xs) && 0 !in xs
    ensures Fits([s] + rest, xs, ys) <==> rest == Interpolant([0] + xs, [s] + ys)[1..]
  {
    hide Add, Mul, Inv, Eval, Interpolant;
    var zs, vs, p := [0] + xs, [s] + ys, [s] + rest;
    var q := Interpolant(zs, vs);
    assert Distinct(zs);
    InterpolantFits(zs, vs);
    EvalAtZero(p);
    EvalAtZero(q);
    assert Eval(q, zs[0]) == vs[0];
    assert q == [s] + q[1..];
    if Fits(p, xs, ys) {
      forall i | 0 <= i < |zs|
        ensures Eval(p, zs[i]) == vs[i]
      {
        if i > 0 { assert zs[i] == xs[i - 1]; }
      }
      UniqueFit(p, q, zs, vs);
    } else if rest == q[1..] {
      forall i | 0 <= i < |xs|
        ensures Eval(p, xs[i]) == ys[i]
      {
        assert zs[i + 1] == xs[i] && vs[i + 1] == ys[i];
      }
    }
  }

  /**
   * k-1 shares fit every secret of the right length equally: whatever was observed at k-1 distinct
   * nonzero coordinates, each candidate secret is explained by exactly one set of draws.
   */
  lemma ThresholdSecrecy(secret: seq<byte>, draws: Draws, xs: seq<byte>, bodies: seq<seq<byte>>)
    requires Observed(xs, bodies, |secret|)
    ensures Explains(secret, draws, xs, bodies) <==> draws == Explanation(secret, xs, bodies)
  {
    hide Add, Mul, Inv, Eval, Interpolant, Fits, Distinct;
    if ValidDraws(draws, |secret|, |xs| + 1) {
      ExplainsByteByByte(secret, draws, xs, bodies);
      forall b | 0 <= b < |secret|
        ensures Fits(SecretPoly(secret, draws, b), xs, BodyColumn(bodies, |secret|, b))
                <==> draws[b] == Explanation(secret, xs, bodies)[b]
      {
        OneByteSecrecy(secret[b], draws[b], xs, BodyColumn(bodies, |secret|, b));
      }
    }
  }
}
