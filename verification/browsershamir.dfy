/** The browser's implementation: branches where the server masks, and 32-bit numbers where it has bytes. */
module BrowserShamir {
  import opened Base64Url
  import opened Combining
  import opened Gf256
  import opened Polynomials
  import opened ShareCodec
  import opened Sharing
  import opened Shamir
  import Text
  import opened Wrappers

  method JsGfMul(a0: byte, b0: byte) returns (r: byte)
    ensures r == Mul(a0, b0)
  {
    hide Mul, MulBits, Add, JsSum, JsDouble;
    var p: bv32, a: bv32, b: bv32 := 0, a0 as bv32, b0 as bv32;
    MulUnfold(a0, b0);
    AddLaws(Mul(a0, b0), 0);
    for i := 0 to 8
      invariant p < 0x100 && a < 0x100 && b < 0x100
      invariant Add(p as byte, MulBits(a as byte, b as byte, 8 - i)) == Mul(a0, b0)
    {
      JsMulStep(p, a, b, 8 - i);
      p, a, b := JsMulTurn(p, a, b);
    }
    MulBitsStep(a as byte, b as byte, 0);
    AddLaws(p as byte, 0);
    LowByte(p);
    r := (p & 0xff) as byte;
  }

  /** The statements of the loop body. */
  method JsMulTurn(p0: bv32, a0: bv32, b0: bv32) returns (p: bv32, a: bv32, b: bv32)
    ensures p == JsSum(p0, a0, b0) && a == JsDouble(a0) && b == b0 >> 1
  {
    p, a, b := p0, a0, b0;
    if b & 1 != 0 { p := p ^ a; }
    var hi := a & 0x80;
    a := (a << 1) & 0xff;
    if hi != 0 { a := a ^ 0x1b; }
    b := b >> 1;
  }

  lemma LowByte(p: bv32)
    requires p < 0x100
    ensures p & 0xff == p
  {}

  function JsSum(p: bv32, a: bv32, b: bv32): bv32 { if b & 1 != 0 then p ^ a else p }

  function JsDouble(a: bv32): bv32 {
    if a & 0x80 != 0 then ((a << 1) & 0xff) ^ 0x1b else (a << 1) & 0xff
  }

  lemma JsSumByte(p: bv32, a: bv32, b: bv32)
    requires p < 0x100 && a < 0x100 && b < 0x100
    ensures JsSum(p, a, b) < 0x100 && b >> 1 < 0x100 && (b >> 1) as byte == Shr(b as byte)
    ensures JsSum(p, a, b) as byte == Add(p as byte, Pick(Low(b as byte), a as byte))
  {}

  lemma JsDoubleByte(a: bv32)
    requires a < 0x100
    ensures JsDouble(a) < 0x100 && JsDouble(a) as byte == XTime(a as byte)
  {}

  /** One turn of the loop on 32-bit numbers does to their low bytes what the field definition asks. */
  lemma JsMulStep(p: bv32, a: bv32, b: bv32, n: nat)
    requires p < 0x100 && a < 0x100 && b < 0x100 && n > 0
    ensures JsSum(p, a, b) < 0x100 && JsDouble(a) < 0x100 && b >> 1 < 0x100
    ensures Add(p as byte, MulBits(a as byte, b as byte, n))
            == Add(JsSum(p, a, b) as byte, MulBits(JsDouble(a) as byte, (b >> 1) as byte, n - 1))
  {
    hide JsSum, JsDouble, Add, Pick, Low, XTime, Shr;
    JsSumByte(p, a, b);
    JsDoubleByte(a);
    AddAssoc(p as byte, Pick(Low(b as byte), a as byte), MulBits(XTime(a as byte), Shr(b as byte), n - 1));
  }

  method JsGfInv(a: byte) returns (result: byte)
    ensures result == Inv(a)
  {
    hide Mul, Pow;
    result := 1;
    var base, exp: nat := a, 254;
    OneTimes(Pow(a, 254));
    while exp > 0
      invariant Mul(result, Pow(base, exp)) == Pow(a, 254)
    {
      PowSquare(base, exp / 2);
      if exp % 2 != 0 {
        PowStep(base, exp - 1);
        MulComm(Pow(base, exp - 1), base);
        MulAssoc(result, base, Pow(base, exp - 1));
        result := JsGfMul(result, base);
      }
      base := JsGfMul(base, base);
      exp := exp / 2;
    }
    PowZero(base);
    MulComm(result, 1);
    OneTimes(result);
  }

  method JsGfEval(coeffs: array<byte>, x: byte) returns (y: byte)
    ensures y == Eval(coeffs[..], x)
  {
    hide Mul;
    y := 0;
    var i := coeffs.Length;
    while i > 0
      invariant 0 <= i <= coeffs.Length
      invariant y == Eval(coeffs[i..], x)
    {
      i := i - 1;
      y := JsGfMul(y, x);
      y := y ^ coeffs[i];
      assert coeffs[i..][1..] == coeffs[i + 1..];
    }
    assert coeffs[0..] == coeffs[..];
  }

  /** The platform's random source always fills the whole request. */
  method JsSplitRaw(secret: seq<byte>, n: nat, k: nat, draws: Draws) returns (shares: array2<byte>)
    requires ValidDraws(draws, |secret|, k)
    ensures fresh(shares) && SplitTable(secret, draws, n, shares)
  {
    hide Mul, Eval, ToByte, Add;
    var len := |secret|;
    shares := new byte[n, len + 1];
    for i := 0 to n
      invariant forall j :: 0 <= j < i ==> shares[j, len] == ToByte(j + 1)
    {
      shares[i, len] := ToByte(i + 1);
    }
    var coeffs := new byte[k];
    for b := 0 to len
      invariant forall i :: 0 <= i < n ==> shares[i, len] == ToByte(i + 1)
      invariant forall i, d :: 0 <= i < n && 0 <= d < b ==>
        shares[i, d] == Eval(SecretPoly(secret, draws, d), ToByte(i + 1))
    {
      coeffs[0] := secret[b];
      forall j | 1 <= j < k { coeffs[j] := draws[b][j - 1]; }
      assert coeffs[..] == SecretPoly(secret, draws, b);
      for i := 0 to n
        invariant coeffs[..] == SecretPoly(secret, draws, b)
        invariant forall j :: 0 <= j < n ==> shares[j, len] == ToByte(j + 1)
        invariant forall j, d :: 0 <= j < n && 0 <= d < b ==>
          shares[j, d] == Eval(SecretPoly(secret, draws, d), ToByte(j + 1))
        invariant forall j :: 0 <= j < i ==> shares[j, b] == Eval(SecretPoly(secret, draws, b), ToByte(j + 1))
      {
        var y := JsGfEval(coeffs, shares[i, len]);
        shares[i, b] := y;
      }
    }
  }

  /** Given the same draws, the browser emits the very strings the server side emits. */
  method JsSplit(h: Hash, secret: seq<byte>, n: int, k: int, draws: Draws) returns (r: Result<seq<string>, ShamirError>)
    requires |draws| == |secret| && (2 <= k <= n <= 255 ==> ValidDraws(draws, |secret|, k))
    ensures r == SplitOutcome(h, secret, n, k, draws)
    ensures secret == [] <==> r == Err(EmptySecret)
    ensures secret != [] && (k < 2 || k > n) <==> r == Err(InvalidThreshold)
    ensures secret != [] && 2 <= k <= n && n > 255 <==> r == Err(TooManyShares)
    ensures secret != [] && 2 <= k <= n <= 255 ==> r.Ok? && |r.value| == n
  {
    hide Mul, Eval, ToByte, Octet, EncodeShare, JsEncodeShare, Add;
    if |secret| == 0 { return Err(EmptySecret); }
    if k < 2 || k > n { return Err(InvalidThreshold); }
    if n > 255 { return Err(TooManyShares); }
    var raw := JsSplitRaw(secret, n, k, draws);
    var out: seq<string> := [];
    for i := 0 to n
      invariant SplitTable(secret, draws, n, raw)
      invariant |out| == i
      invariant forall j :: 0 <= j < i ==> out[j] == EncodeShare(h, SplitShares(secret, n, k, draws)[j])
    {
      var body, x := Row(raw, i);
      OctetToByte(i + 1);
      assert body == ShareBody(secret, draws, ToByte(i + 1));
      EncodersAgreeOnShares(h, Share(k, Octet(x), body));
      out := out + [JsEncodeShare(h, Share(k, Octet(x), body))];
    }
    assert out == SplitOutcome(h, secret, n, k, draws).value;
    return Ok(out);
  }

  method JsCombineByte(raw: seq<seq<byte>>, xs: array<byte>, ghost len: nat, b: nat) returns (acc: byte)
    requires RawShares(raw, len) && xs[..] == Coordinates(raw, len) && b < len
    ensures acc == LagrangeAtZero(Coordinates(raw, len), Column(raw, len, b))
  {
    hide Mul, Inv;
    ghost var cs := Coordinates(raw, len);
    acc := 0;
    for i := 0 to |raw|
      invariant acc == LagrangeSum(cs, Column(raw, len, b), i)
    {
      var num: byte, den: byte := 1, 1;
      for j := 0 to |raw|
        invariant num == Numerator(cs, i, j) && den == Denominator(cs, i, j)
      {
        if j == i { continue; }
        num := JsGfMul(num, xs[j]);
        den := JsGfMul(den, xs[i] ^ xs[j]);
      }
      var inverse := JsGfInv(den);
      var basis := JsGfMul(num, inverse);
      var term := JsGfMul(raw[i][b], basis);
      acc := acc ^ term;
    }
  }

  method JsCombineRaw(raw: seq<seq<byte>>) returns (secret: seq<byte>)
    requires |raw| > 0 && |raw[0]| > 0 && RawShares(raw, |raw[0]| - 1)
    ensures secret == Recover(raw, |raw[0]| - 1)
  {
    hide Mul, Inv, LagrangeAtZero;
    var len := |raw[0]| - 1;
    var xs := new byte[|raw|];
    for i := 0 to |raw|
      invariant forall j :: 0 <= j < i ==> xs[j] == raw[j][len]
    {
      xs[i] := raw[i][len];
    }
    var out := new byte[len];
    for b := 0 to len
      invariant xs[..] == Coordinates(raw, len)
      invariant forall d :: 0 <= d < b ==> out[d] == Recover(raw, len)[d]
    {
      var acc := JsCombineByte(raw, xs, len, b);
      out[b] := acc;
    }
    secret := out[..];
  }

  // ----- combining strings -----

  /** White space and line terminators, as String.prototype.trim removes them. */
  predicate IsTrimmed(c: char) {
    || '\U{0009}' <= c <= '\U{000D}'
    || '\U{2000}' <= c <= '\U{200A}'
    || c in [' ', '\U{00A0}', '\U{1680}', '\U{2028}', '\U{2029}', '\U{202F}', '\U{205F}', '\U{3000}', '\U{FEFF}']
  }

  function Trim(s: string): string {
    if s == "" then ""
    else if IsTrimmed(s[0]) then Trim(s[1..])
    else if IsTrimmed(s[|s| - 1]) then Trim(s[..|s| - 1])
    else s
  }

  function BrowserDecoder(h: Hash): Decoder { s => JsDecodeShare(h, Trim(s)) }

  /** The browser's errors do not number the share. */
  function ErrorClass(r: Result<seq<byte>, CombineError>): (c: Result<seq<byte>, ShamirError>)
    ensures r.Ok? <==> c.Ok?
    ensures r.Ok? ==> c == Ok(r.value)
    ensures forall e :: r == Err(Whole(e)) ==> c == Err(e)
    ensures forall i, e :: r == Err(AtShare(i, e)) ==> c == Err(e)
  {
    match r
    case Ok(secret) => Ok(secret)
    case Err(e) => Err(e.error)
  }

  method JsCombine(h: Hash, shareStrings: seq<string>) returns (r: Result<seq<byte>, ShamirError>)
    ensures r == ErrorClass(Combined(BrowserDecoder(h), shareStrings))
  {
    hide Recover, JsDecodeShare, ToByte, Trim, Column, Coordinates, FirstFault;
    ghost var decode := BrowserDecoder(h);
    if |shareStrings| < 2 { return Err(TooFewShares); }
    hide Combined;
    var wantK: Option<nat>, bodyLen := None, 0;
    var seen: set<nat> := {};
    var raw: seq<seq<byte>> := [];
    for i := 0 to |shareStrings|
      invariant FirstFault(decode, shareStrings, 0) == FirstFault(decode, shareStrings, i)
      invariant forall j :: 0 <= j < i ==> decode(shareStrings[j]).Ok?
      invariant if i == 0 then wantK == None
                else wantK == Some(decode(shareStrings[0]).value.k) && bodyLen == |decode(shareStrings[0]).value.body|
      invariant forall x :: x in seen <==> Repeated(decode, shareStrings, i, x)
      invariant raw == Points(decode, shareStrings)[..i]
    {
      var d := JsDecodeShare(h, Trim(shareStrings[i]));
      assert d == decode(shareStrings[i]);
      FaultDecides(decode, shareStrings, i);
      if d.Err? { return Err(d.error); }
      var s := d.value;
      if wantK == None {
        wantK, bodyLen := Some(s.k), |s.body|;
      } else if s.k != wantK.value {
        return Err(ThresholdMismatch);
      } else if |s.body| != bodyLen {
        return Err(LengthMismatch);
      }
      if s.x in seen { return Err(DuplicateX); }
      seen := seen + {s.x};
      var point := s.body + [ToByte(s.x)];
      raw := raw + [point];
    }
    assert raw == Points(decode, shareStrings);
    hide Points, Repeated, ShareFault;
    CountDecides(decode, shareStrings);
    if |raw| < wantK.value { return Err(TooFewShares); }
    var secret := JsCombineRaw(raw);
    return Ok(secret);
  }

  lemma ShareTextIsTrimmed(s: string)
    requires ShareText(s)
    ensures Trim(s) == s
  {
    forall c: char | c == '.' || UrlValue(c).Some?
      ensures !IsTrimmed(c)
    {}
  }

  /**
   * On every list of strings over the share alphabet, malformed and corrupted ones included, the two
   * implementations succeed with the same bytes or fail with the same class of error.
   */
  lemma ImplementationsAgree(h: Hash, shares: seq<string>)
    requires forall i :: 0 <= i < |shares| ==> ShareText(shares[i])
    ensures Combined(BrowserDecoder(h), shares) == Combined(ServerDecoder(h), shares)
  {
    hide DecodeShare, JsDecodeShare, Combined, ShareText, Trim;
    forall i | 0 <= i < |shares|
      ensures BrowserDecoder(h)(shares[i]) == ServerDecoder(h)(shares[i])
    {
      ShareTextIsTrimmed(shares[i]);
      DecodersAgreeOnShares(h, shares[i]);
    }
    SameOutcome(BrowserDecoder(h), ServerDecoder(h), shares);
  }

  /** Everything a split emits lies in the alphabet on which the implementations agree. */
  lemma EncodedSharesAreShareText(h: Hash, s: Share)
    ensures ShareText(EncodeShare(h, s))
  {
    hide UrlValue, Encode, Checksum;
    EncodeIsUrlText(Checksum(h, s));
    EncodeIsUrlText(s.body);
    forall c: char | Text.IsDigit(c)
      ensures UrlValue(c).Some?
    {
      DigitIsUrlChar(c);
    }
    DigitIsUrlChar('1');
    SmallSIsUrlChar();
    assert forall i :: 0 <= i < |Text.Decimal(s.k)| ==> Text.IsDigit(Text.Decimal(s.k)[i]);
    assert forall i :: 0 <= i < |Text.Decimal(s.x)| ==> Text.IsDigit(Text.Decimal(s.x)[i]);
  }

  lemma DigitIsUrlChar(c: char)
    requires Text.IsDigit(c)
    ensures UrlValue(c).Some?
  {}

  lemma SmallSIsUrlChar()
    ensures UrlValue('s').Some?
  {}
}
