/** The text form of a share: four fields after the prefix, the third guarding the others. */
module ShareCodec {
  import opened Base64Url
  import opened BrowserBase64
  import opened Gf256
  import opened Text
  import opened Wrappers

  const SHARE_PREFIX := "sss1."
  const SHARE_VERSION: byte := 1
  const CHECKSUM_LEN := 4

  datatype ShamirError =
    | EmptySecret
    | InvalidThreshold
    | TooManyShares
    | RandomFailed
    | BadShare
    | ChecksumMismatch
    | ThresholdMismatch
    | LengthMismatch
    | DuplicateX
    | TooFewShares

  /** A decoded share: threshold, evaluation point and share bytes. */
  datatype Share = Share(k: nat, x: nat, body: seq<byte>) {
    predicate Valid() {
      2 <= k <= 255 && 1 <= x <= 255 && body != []
    }
  }

  /** SHA-256, left uninterpreted. */
  type Digest = d: seq<byte> | |d| == 32 witness seq(32, _ => 0)
  type Hash = seq<byte> -> Digest

  function Checksum(h: Hash, s: Share): (chk: seq<byte>)
    ensures |chk| == CHECKSUM_LEN
  {
    h([SHARE_VERSION, ToByte(s.k), ToByte(s.x)] + s.body)[..CHECKSUM_LEN]
  }

  function Join(h: Hash, s: Share, encode: seq<byte> -> string): string {
    SHARE_PREFIX + Decimal(s.k) + "." + Decimal(s.x) + "." + encode(Checksum(h, s)) + "." + encode(s.body)
  }

  function EncodeShare(h: Hash, s: Share): string { Join(h, s, Encode) }

  function JsEncodeShare(h: Hash, s: Share): string { Join(h, s, JsEncode) }

  /** The four dot-separated fields after the prefix. */
  function Fields(s: string): Option<seq<string>> {
    if !(SHARE_PREFIX <= s) then None
    else
      var parts := SplitDots(s[|SHARE_PREFIX|..]);
      if |parts| != 4 then None else Some(parts)
  }

  function DecodeShare(h: Hash, s: string): (r: Result<Share, ShamirError>)
    ensures r.Ok? ==> r.value.Valid()
    ensures r.Err? ==> r.error in {BadShare, ChecksumMismatch}
  {
    var fields := Fields(s);
    if fields.None? then Err(BadShare) else
    var parts := fields.value;
    var k := Atoi(parts[0]);
    if k.None? || k.value < 2 || k.value > 255 then Err(BadShare) else
    var x := Atoi(parts[1]);
    if x.None? || x.value < 1 || x.value > 255 then Err(BadShare) else
    var chk := Decode(parts[2]);
    if chk.None? || |chk.value| != CHECKSUM_LEN then Err(BadShare) else
    var body := Decode(parts[3]);
    if body.None? || |body.value| == 0 then Err(BadShare) else
    var share := Share(k.value, x.value, body.value);
    if chk.value != Checksum(h, share) then Err(ChecksumMismatch) else Ok(share)
  }

  function JsDecodeShare(h: Hash, s: string): Result<Share, ShamirError> {
    var fields := Fields(s);
    if fields.None? then Err(BadShare) else
    var parts := fields.value;
    var k, x := ParseDigits(parts[0]), ParseDigits(parts[1]);
    if k.None? || x.None? then Err(BadShare) else
    if k.value < 2 || k.value > 255 || x.value < 1 || x.value > 255 then Err(BadShare) else
    var chk, body := JsDecode(parts[2]), JsDecode(parts[3]);
    if chk.None? || body.None? then Err(BadShare) else
    if |chk.value| != CHECKSUM_LEN || |body.value| == 0 then Err(BadShare) else
    var share := Share(k.value, x.value, body.value);
    if chk.value != Checksum(h, share) then Err(ChecksumMismatch) else Ok(share)
  }

  // ----- round trips -----

  lemma FieldsOfJoin(a: string, b: string, c: string, d: string)
    requires NoDots(a) && NoDots(b) && NoDots(c) && NoDots(d)
    ensures Fields(SHARE_PREFIX + a + "." + b + "." + c + "." + d) == Some([a, b, c, d])
  {
    var s := SHARE_PREFIX + a + "." + b + "." + c + "." + d;
    var cd := c + "." + d;
    var bcd := b + "." + cd;
    assert s == SHARE_PREFIX + (a + "." + bcd);
    assert s[|SHARE_PREFIX|..] == a + "." + bcd;
    SplitFirst(a, bcd);
    SplitFirst(b, cd);
    SplitFirst(c, d);
    SplitNoDots(d);
    assert [a] + ([b] + ([c] + [d])) == [a, b, c, d];
  }

  lemma UrlTextHasNoDots(t: string)
    requires IsUrlText(t)
    ensures NoDots(t)
  {
    forall i | 0 <= i < |t|
      ensures t[i] != '.'
    {
      assert UrlValue(t[i]).Some?;
    }
  }

  lemma EncodeIsUrlText(bytes: seq<byte>)
    ensures IsUrlText(Encode(bytes))
  {
    hide Sextets, UrlValue, UrlChar;
    ValuesOfChars(Sextets(OctetsOf(bytes)));
  }

  lemma FieldsOfSpelling(chk: seq<byte>, s: Share)
    ensures Fields(SHARE_PREFIX + Decimal(s.k) + "." + Decimal(s.x) + "." + Encode(chk) + "." + Encode(s.body))
            == Some([Decimal(s.k), Decimal(s.x), Encode(chk), Encode(s.body)])
  {
    hide Fields, Encode, IsUrlText;
    forall bytes: seq<byte>
      ensures NoDots(Encode(bytes))
    {
      EncodeIsUrlText(bytes);
      UrlTextHasNoDots(Encode(bytes));
    }
    forall n: nat
      ensures NoDots(Decimal(n))
    {
      assert forall i :: 0 <= i < |Decimal(n)| ==> IsDigit(Decimal(n)[i]);
    }
    FieldsOfJoin(Decimal(s.k), Decimal(s.x), Encode(chk), Encode(s.body));
  }

  /** Decoding an encoded share gives the share back. */
  lemma ShareRoundTrip(h: Hash, s: Share)
    requires s.Valid()
    ensures DecodeShare(h, EncodeShare(h, s)) == Ok(s)
  {
    hide Fields, Encode, Decode, Checksum, Atoi, Decimal;
    FieldsOfSpelling(Checksum(h, s), s);
    ParseDecimal(s.k);
    ParseDecimal(s.x);
    DecodeEncode(Checksum(h, s));
    DecodeEncode(s.body);
  }

  /** However it was spelled, an accepted share re-encodes to a string that decodes to the same share. */
  lemma Reencode(h: Hash, s: string)
    requires DecodeShare(h, s).Ok?
    ensures DecodeShare(h, EncodeShare(h, DecodeShare(h, s).value)) == DecodeShare(h, s)
  {
    hide EncodeShare, DecodeShare;
    ShareRoundTrip(h, DecodeShare(h, s).value);
  }

  // ----- the format, written out -----

  /** A string has the four fields exactly if it is the prefix and they, joined by dots, and none has a dot. */
  lemma FieldsExactly(s: string, a: string, b: string, c: string, d: string)
    ensures Fields(s) == Some([a, b, c, d]) <==>
              s == "sss1." + a + "." + b + "." + c + "." + d && NoDots(a) && NoDots(b) && NoDots(c) && NoDots(d)
  {
    if Fields(s) == Some([a, b, c, d]) {
      var rest := s[|SHARE_PREFIX|..];
      SplitJoins(rest);
      assert SplitDots(rest) == [a, b, c, d];
      FourJoined(a, b, c, d);
      assert s == "sss1." + rest;
      assert NoDots(SplitDots(rest)[0]) && NoDots(SplitDots(rest)[1]) && NoDots(SplitDots(rest)[2]);
      assert NoDots(SplitDots(rest)[3]);
      assert "sss1." + (a + "." + (b + "." + (c + "." + d))) == "sss1." + a + "." + b + "." + c + "." + d;
    } else if NoDots(a) && NoDots(b) && NoDots(c) && NoDots(d) {
      FieldsOfJoin(a, b, c, d);
    }
  }

  lemma FourJoined(a: string, b: string, c: string, d: string)
    ensures JoinDots([a, b, c, d]) == a + "." + (b + "." + (c + "." + d))
  {
    assert [a, b, c, d][1..] == [b, c, d] && [b, c, d][1..] == [c, d] && [c, d][1..] == [d];
    assert JoinDots([c, d]) == c + "." + d;
    assert JoinDots([b, c, d]) == b + "." + JoinDots([c, d]);
  }

  /** The checksum is the first four bytes of the hash over the version 1, threshold, coordinate and body. */
  lemma ChecksumBytes(h: Hash, s: Share)
    requires s.Valid()
    ensures Checksum(h, s) == h([1, s.k as byte, s.x as byte] + s.body)[..4]
  {}

  /** `s` spells the share `t` in these four fields, with the checksum that belongs to it. */
  ghost predicate Spells(h: Hash, s: string, t: Share, a: string, b: string, c: string, d: string) {
    && s == "sss1." + a + "." + b + "." + c + "." + d && NoDots(a) && NoDots(b) && NoDots(c) && NoDots(d)
    && Atoi(a) == Some(t.k) && 2 <= t.k <= 255
    && Atoi(b) == Some(t.x) && 1 <= t.x <= 255
    && Decode(c) == Some(h([1, t.k as byte, t.x as byte] + t.body)[..4])
    && Decode(d) == Some(t.body) && |t.body| > 0
  }

  lemma AcceptedSpells(h: Hash, s: string, t: Share)
    requires DecodeShare(h, s) == Ok(t)
    ensures Fields(s).Some? && |Fields(s).value| == 4
    ensures var f := Fields(s).value; Spells(h, s, t, f[0], f[1], f[2], f[3])
  {
    hide Fields, Atoi, Decode, NoDots, Checksum;
    var f := Fields(s).value;
    FourFields(s);
    assert f == [f[0], f[1], f[2], f[3]];
    FieldsExactly(s, f[0], f[1], f[2], f[3]);
    ChecksumBytes(h, t);
  }

  lemma SpelledFields(h: Hash, s: string, t: Share, a: string, b: string, c: string, d: string)
    requires Spells(h, s, t, a, b, c, d)
    ensures t.Valid() && Fields(s) == Some([a, b, c, d]) && Atoi(a) == Some(t.k) && Atoi(b) == Some(t.x)
    ensures Decode(c) == Some(Checksum(h, t)) && Decode(d) == Some(t.body)
  {
    hide Fields, Atoi, Decode, NoDots, Checksum;
    FieldsExactly(s, a, b, c, d);
    ChecksumBytes(h, t);
  }

  lemma SpelledAccepted(h: Hash, s: string, t: Share, a: string, b: string, c: string, d: string)
    requires Spells(h, s, t, a, b, c, d)
    ensures DecodeShare(h, s) == Ok(t)
  {
    hide Spells, Fields, Atoi, Decode, Checksum;
    SpelledFields(h, s, t, a, b, c, d);
  }

  /** A string is accepted as a share if and only if it spells that share. */
  lemma AcceptedExactly(h: Hash, s: string, t: Share)
    ensures DecodeShare(h, s) == Ok(t) <==> exists a, b, c, d :: Spells(h, s, t, a, b, c, d)
  {
    hide DecodeShare, Spells;
    if DecodeShare(h, s) == Ok(t) { AcceptedSpells(h, s, t); }
    if a, b, c, d :| Spells(h, s, t, a, b, c, d) { SpelledAccepted(h, s, t, a, b, c, d); }
  }

  lemma FourFields(s: string)
    ensures Fields(s).Some? ==> |Fields(s).value| == 4
  {}

  /** What a share is rendered as, with the checksum that belongs to it. */
  lemma EncodedSpells(h: Hash, s: Share)
    requires s.Valid()
    ensures Spells(h, EncodeShare(h, s), s, Decimal(s.k), Decimal(s.x), Encode(Checksum(h, s)), Encode(s.body))
  {
    hide Fields, Encode, Decode, Checksum, Atoi, Decimal, NoDots;
    FieldsOfSpelling(Checksum(h, s), s);
    FieldsExactly(EncodeShare(h, s), Decimal(s.k), Decimal(s.x), Encode(Checksum(h, s)), Encode(s.body));
    ParseDecimal(s.k);
    ParseDecimal(s.x);
    DecodeEncode(Checksum(h, s));
    DecodeEncode(s.body);
    ChecksumBytes(h, s);
  }

  /** The bytes that the checksum is made over tell any two shares apart. */
  lemma PreimagesDiffer(s: Share, t: Share)
    requires s.Valid() && t.Valid() && s != t
    ensures [1 as byte, s.k as byte, s.x as byte] + s.body != [1 as byte, t.k as byte, t.x as byte] + t.body
  {
    var u, v := [1 as byte, s.k as byte, s.x as byte] + s.body, [1 as byte, t.k as byte, t.x as byte] + t.body;
    if u == v {
      assert u[1] == s.k as byte && v[1] == t.k as byte && u[2] == s.x as byte && v[2] == t.x as byte;
      assert u[3..] == s.body && v[3..] == t.body;
      ByteTells(s.k, t.k);
      ByteTells(s.x, t.x);
    }
  }

  lemma ByteTells(a: nat, b: nat)
    requires a <= 255 && b <= 255 && a as byte == b as byte
    ensures a == b
  {
    hide Octet, ToByte;
    SmallByte(a);
    SmallByte(b);
    OctetToByte(a);
    OctetToByte(b);
  }

  lemma SmallByte(n: nat)
    requires n <= 255
    ensures n as byte == ToByte(n)
  {}

  /** No part of a share is left out: for any two different shares some hash tells their checksums apart. */
  lemma ChecksumTells(s: Share, t: Share) returns (h: Hash)
    requires s.Valid() && t.Valid() && s != t
    ensures Checksum(h, s) != Checksum(h, t)
  {
    var u, v := [1 as byte, s.k as byte, s.x as byte] + s.body, [1 as byte, t.k as byte, t.x as byte] + t.body;
    h := d => if d == u then seq(32, _ => 0) else seq(32, _ => 1);
    PreimagesDiffer(s, t);
    ChecksumBytes(h, s);
    ChecksumBytes(h, t);
    assert h(u)[..4][0] == 0 && h(v)[..4][0] == 1;
  }

  // ----- agreement of the two implementations -----

  /** Text over the characters a share can contain: the url-safe alphabet and the dot. */
  predicate ShareText(s: string) {
    forall i :: 0 <= i < |s| ==> s[i] == '.' || UrlValue(s[i]).Some?
  }

  lemma EncodersAgreeOnShares(h: Hash, s: Share)
    ensures JsEncodeShare(h, s) == EncodeShare(h, s)
  {
    hide Encode, JsEncode;
    EncodersAgree(Checksum(h, s));
    EncodersAgree(s.body);
  }

  /**
   * On every string over the share alphabet, well-formed or not, corrupted or not, the two decoders
   * return the same share or the same error.
   */
  lemma DecodersAgreeOnShares(h: Hash, s: string)
    requires ShareText(s)
    ensures JsDecodeShare(h, s) == DecodeShare(h, s)
  {
    hide Fields, IsUrlText, Atoi, ParseDigits, Decode, JsDecode, Checksum;
    if Fields(s).Some? {
      var parts := Fields(s).value;
      FieldsAreUrlText(s);
      ParsersAgree(parts[0], 2, 255);
      ParsersAgree(parts[1], 1, 255);
      UrlTextHasNoNewlines(parts[2]);
      UrlTextHasNoNewlines(parts[3]);
      DecodersAgree(parts[2]);
      DecodersAgree(parts[3]);
    }
  }

  lemma FieldsAreUrlText(s: string)
    requires ShareText(s) && Fields(s).Some?
    ensures |Fields(s).value| == 4
    ensures forall j :: 0 <= j < 4 ==> IsUrlText(Fields(s).value[j])
    ensures forall j :: 0 <= j < 4 ==> Fields(s).value[j] == "" || Fields(s).value[j][0] != '+'
  {
    hide UrlValue;
    var parts := Fields(s).value;
    SplitPreserves(s[|SHARE_PREFIX|..], c => UrlValue(c).Some?);
    assert UrlValue('+') == None by { PlusIsNoUrlChar(); }
  }

  lemma PlusIsNoUrlChar()
    ensures UrlValue('+') == None
  {}

  /** Off that alphabet they part: a plus sign before the threshold is accepted by the server side only. */
  lemma PlusSignAccepted(h: Hash, s: Share)
    requires s.Valid()
    ensures var t := SHARE_PREFIX + "+" + Decimal(s.k) + "." + Decimal(s.x) + "."
                     + Encode(Checksum(h, s)) + "." + Encode(s.body);
            DecodeShare(h, t) == Ok(s) && JsDecodeShare(h, t) == Err(BadShare)
  {
    hide Fields, Encode, Decode, Checksum, Decimal, JsDecode, IsUrlText;
    EncodeIsUrlText(Checksum(h, s));
    EncodeIsUrlText(s.body);
    UrlTextHasNoDots(Encode(Checksum(h, s)));
    UrlTextHasNoDots(Encode(s.body));
    var k := "+" + Decimal(s.k);
    assert forall i :: 0 <= i < |Decimal(s.k)| ==> IsDigit(Decimal(s.k)[i]);
    assert forall i :: 0 <= i < |Decimal(s.x)| ==> IsDigit(Decimal(s.x)[i]);
    FieldsOfJoin(k, Decimal(s.x), Encode(Checksum(h, s)), Encode(s.body));
    assert SHARE_PREFIX + "+" + Decimal(s.k) == SHARE_PREFIX + k;
    assert k[1..] == Decimal(s.k) && k[0] == '+';
    ParseDecimal(s.k);
    ParseDecimal(s.x);
    DecimalValue(s.k);
    DecodeEncode(Checksum(h, s));
    DecodeEncode(s.body);
  }
}
