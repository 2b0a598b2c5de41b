/** The server-side implementation: loops over byte slices, proved against Sharing and Combining. */
module Shamir {
  import opened Base64Url
  import opened Combining
  import opened Gf256
  import opened Polynomials
  import opened ShareCodec
  import opened Sharing
  import opened Wrappers

  method GfEval(coeffs: array<byte>, x: byte) returns (y: byte)
    ensures y == Eval(coeffs[..], x)
  {
    hide Mul;
    y := 0;
    var i := coeffs.Length;
    while i > 0
      invariant 0 <= i <= coeffs.Length
      invariant y == Eval(coeffs[i..], x)
    {
      i := i - 1;
      y := GfMul(y, x);
      y := y ^ coeffs[i];
      assert coeffs[i..][1..] == coeffs[i + 1..];
    }
    assert coeffs[0..] == coeffs[..];
  }

  /** Row i holds the body of share i+1 followed by its coordinate. */
  ghost predicate SplitTable(secret: seq<byte>, draws: Draws, n: nat, shares: array2<byte>)
    requires |draws| == |secret|
    reads shares
  {
    && shares.Length0 == n && shares.Length1 == |secret| + 1
    && (forall i :: 0 <= i < n ==> shares[i, |secret|] == ToByte(i + 1))
    && forall i, b :: 0 <= i < n && 0 <= b < |secret| ==>
         shares[i, b] == Eval(SecretPoly(secret, draws, b), ToByte(i + 1))
  }

  /** A draw of the wrong length stands for a failed read from the random source. */
  method SplitRaw(secret: seq<byte>, n: nat, k: nat, draws: Draws) returns (r: Result<array2<byte>, ShamirError>)
    requires 1 <= k && |draws| == |secret|
    ensures r.Ok? <==> ValidDraws(draws, |secret|, k)
    ensures r.Ok? ==> fresh(r.value) && SplitTable(secret, draws, n, r.value)
    ensures r.Err? ==> r.error == RandomFailed
  {
    hide Mul, Eval, ToByte, Add;
    var len := |secret|;
    var shares := new byte[n, len + 1];
    for i := 0 to n
      invariant forall j :: 0 <= j < i ==> shares[j, len] == ToByte(j + 1)
    {
      shares[i, len] := ToByte(i + 1);
    }
    var coeffs := new byte[k];
    for b := 0 to len
      invariant forall d :: 0 <= d < b ==> |draws[d]| == k - 1
      invariant forall i :: 0 <= i < n ==> shares[i, len] == ToByte(i + 1)
      invariant forall i, d :: 0 <= i < n && 0 <= d < b ==>
        shares[i, d] == Eval(SecretPoly(secret, draws, d), ToByte(i + 1))
    {
      coeffs[0] := secret[b];
      if |draws[b]| != k - 1 { return Err(RandomFailed); }
      forall j | 1 <= j < k { coeffs[j] := draws[b][j - 1]; }
      assert coeffs[..] == SecretPoly(secret, draws, b);
      for i := 0 to n
        invariant coeffs[..] == SecretPoly(secret, draws, b)
        invariant forall j :: 0 <= j < n ==> shares[j, len] == ToByte(j + 1)
        invariant forall j, d :: 0 <= j < n && 0 <= d < b ==>
          shares[j, d] == Eval(SecretPoly(secret, draws, d), ToByte(j + 1))
        invariant forall j :: 0 <= j < i ==> shares[j, b] == Eval(SecretPoly(secret, draws, b), ToByte(j + 1))
      {
        var y := GfEval(coeffs, shares[i, len]);
        shares[i, b] := y;
      }
    }
    return Ok(shares);
  }

  /** The outcome of a split: the first failing check, or the encoded shares 1 to n. */
  ghost function SplitOutcome(h: Hash, secret: seq<byte>, n: int, k: int, draws: Draws)
    : Result<seq<string>, ShamirError>
    requires |draws| == |secret|
  {
    if secret == [] then Err(EmptySecret)
    else if !(2 <= k <= n) then Err(InvalidThreshold)
    else if n > 255 then Err(TooManyShares)
    else if !ValidDraws(draws, |secret|, k) then Err(RandomFailed)
    else Ok(seq(n, i requires 0 <= i < n => EncodeShare(h, SplitShares(secret, n, k, draws)[i])))
  }

  /** Slicing one row into its body and its coordinate. */
  method Row(shares: array2<byte>, i: nat) returns (body: seq<byte>, x: byte)
    requires i < shares.Length0 && shares.Length1 > 0
    ensures |body| == shares.Length1 - 1 && x == shares[i, |body|]
    ensures forall b :: 0 <= b < |body| ==> body[b] == shares[i, b]
  {
    var len := shares.Length1 - 1;
    body := seq(len, b requires 0 <= b < len reads shares => shares[i, b]);
    x := shares[i, len];
  }

  method Split(h: Hash, secret: seq<byte>, n: int, k: int, draws: Draws) returns (r: Result<seq<string>, ShamirError>)
    requires |draws| == |secret|
    ensures r == SplitOutcome(h, secret, n, k, draws)
    ensures secret == [] <==> r == Err(EmptySecret)
    ensures secret != [] && (k < 2 || k > n) <==> r == Err(InvalidThreshold)
    ensures secret != [] && 2 <= k <= n && n > 255 <==> r == Err(TooManyShares)
    ensures secret != [] && 2 <= k <= n <= 255 ==>
              (r.Ok? <==> ValidDraws(draws, |secret|, k)) && (r.Ok? ==> |r.value| == n)
  {
    hide Mul, Eval, ToByte, Octet, EncodeShare, Add;
    if |secret| == 0 { return Err(EmptySecret); }
    if k < 2 || k > n { return Err(InvalidThreshold); }
    if n > 255 { return Err(TooManyShares); }
    var raw := SplitRaw(secret, n, k, draws);
    if raw.Err? { return Err(raw.error); }
    var table, len := raw.value, |secret|;
    var out := new string[n];
    for i := 0 to n
      invariant SplitTable(secret, draws, n, table)
      invariant forall j :: 0 <= j < i ==> out[j] == EncodeShare(h, SplitShares(secret, n, k, draws)[j])
    {
      var body, x := Row(table, i);
      OctetToByte(i + 1);
      assert body == ShareBody(secret, draws, ToByte(i + 1));
      out[i] := EncodeShare(h, Share(k, Octet(x), body));
    }
    assert out[..] == SplitOutcome(h, secret, n, k, draws).value;
    return Ok(out[..]);
  }

  /** One byte of the result: the loops over the shares for a single byte position. */
  method CombineByte(raw: seq<seq<byte>>, xs: array<byte>, ghost len: nat, b: nat) returns (acc: byte)
    requires RawShares(raw, len) && xs[..] == Coordinates(raw, len) && b < len
    ensures acc == LagrangeAtZero(Coordinates(raw, len), Column(raw, len, b))
  {
    hide Mul, Inv;
    ghost var cs := Coordinates(raw, len);
    acc := 0;
    for i := 0 to |raw|
      invariant acc == LagrangeSum(cs, Column(raw, len, b), i)
    {
      var num: byte, den: byte := 1, 1;
      for j := 0 to |raw|
        invariant num == Numerator(cs, i, j) && den == Denominator(cs, i, j)
      {
        if j == i { continue; }
        num := GfMul(num, xs[j]);
        den := GfMul(den, xs[i] ^ xs[j]);
      }
      var inverse := GfInv(den);
      var basis := GfMul(num, inverse);
      var term := GfMul(raw[i][b], basis);
      acc := acc ^ term;
    }
  }

  method CombineRaw(raw: seq<seq<byte>>) returns (secret: seq<byte>)
    requires |raw| > 0 && |raw[0]| > 0 && RawShares(raw, |raw[0]| - 1)
    ensures secret == Recover(raw, |raw[0]| - 1)
  {
    hide Mul, Inv, LagrangeAtZero;
    var len := |raw[0]| - 1;
    var xs := new byte[|raw|];
    for i := 0 to |raw|
      invariant forall j :: 0 <= j < i ==> xs[j] == raw[j][len]
    {
      xs[i] := raw[i][len];
    }
    var out := new byte[len];
    for b := 0 to len
      invariant xs[..] == Coordinates(raw, len)
      invariant forall d :: 0 <= d < b ==> out[d] == Recover(raw, len)[d]
    {
      var acc := CombineByte(raw, xs, len, b);
      out[b] := acc;
    }
    secret := out[..];
  }

  function ServerDecoder(h: Hash): Decoder { s => DecodeShare(h, s) }

  method Combine(h: Hash, shares: seq<string>) returns (r: Result<seq<byte>, CombineError>)
    ensures r == Combined(ServerDecoder(h), shares)
  {
    hide Recover, DecodeShare, ToByte, Column, Coordinates, FirstFault;
    ghost var decode := ServerDecoder(h);
    if |shares| < 2 { return Err(Whole(TooFewShares)); }
    hide Combined;
    var wantK, bodyLen := 0, 0;
    var seen: set<nat> := {};
    var raw: seq<seq<byte>> := [];
    for i := 0 to |shares|
      invariant FirstFault(decode, shares, 0) == FirstFault(decode, shares, i)
      invariant forall j :: 0 <= j < i ==> decode(shares[j]).Ok?
      invariant i > 0 ==> wantK == decode(shares[0]).value.k && bodyLen == |decode(shares[0]).value.body|
      invariant forall x :: x in seen <==> Repeated(decode, shares, i, x)
      invariant raw == Points(decode, shares)[..i]
    {
      var d := DecodeShare(h, shares[i]);
      assert d == decode(shares[i]);
      FaultDecides(decode, shares, i);
      if d.Err? { return Err(AtShare(i + 1, d.error)); }
      var s := d.value;
      if i == 0 {
        wantK, bodyLen := s.k, |s.body|;
      } else if s.k != wantK {
        return Err(AtShare(i + 1, ThresholdMismatch));
      } else if |s.body| != bodyLen {
        return Err(AtShare(i + 1, LengthMismatch));
      }
      if s.x in seen { return Err(AtShare(i + 1, DuplicateX)); }
      seen := seen + {s.x};
      var point := s.body + [ToByte(s.x)];
      raw := raw + [point];
    }
    assert raw == Points(decode, shares);
    hide Points, Repeated, ShareFault;
    CountDecides(decode, shares);
    if |raw| < wantK { return Err(Whole(TooFewShares)); }
    var secret := CombineRaw(raw);
    return Ok(secret);
  }
}
