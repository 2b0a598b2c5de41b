/** From a wrap token to shares and back, across all the layers. */
module EndToEnd {
  import Base64Url
  import opened BrowserShamir
  import opened Combining
  import opened Gf256
  import opened Polynomials
  import opened ShareCodec
  import opened Sharing
  import opened Shamir
  import Text
  import opened Tokens
  import opened Wrappers

  /** The strings at the chosen positions, in the order chosen. */
  function Chosen<T>(s: seq<T>, picks: seq<nat>): (t: seq<T>)
    requires forall i :: 0 <= i < |picks| ==> picks[i] < |s|
    ensures |t| == |picks|
    ensures forall i :: 0 <= i < |picks| ==> t[i] == s[picks[i]]
  {
    seq(|picks|, i requires 0 <= i < |picks| => s[picks[i]])
  }

  ghost predicate Quorum(picks: seq<nat>, n: nat, k: nat) {
    k <= |picks| && Distinct(picks) && forall i :: 0 <= i < |picks| ==> picks[i] < n
  }

  /** Splits on the server side, hands the picked strings to the given decoder's combination. */
  ghost function Rejoin(h: Hash, decode: Decoder, secret: seq<byte>, n: nat, k: nat, draws: Draws, picks: seq<nat>)
    : Result<seq<byte>, CombineError>
    requires |draws| == |secret| && Quorum(picks, n, k)
  {
    match SplitOutcome(h, secret, n, k, draws)
    case Err(e) => Err(Whole(e))
    case Ok(shares) => Combined(decode, Chosen(shares, picks))
  }

  /** Every quorum of the strings of a split, in any order and of any size up to n, combines to the secret. */
  lemma QuorumOfStrings(h: Hash, secret: seq<byte>, n: nat, k: nat, draws: Draws, picks: seq<nat>)
    requires secret != [] && 2 <= k <= n <= 255 && ValidDraws(draws, |secret|, k) && Quorum(picks, n, k)
    ensures Rejoin(h, ServerDecoder(h), secret, n, k, draws, picks) == Ok(secret)
  {
    hide Combined, EncodeShare, DecodeShare, ShareBody;
    var shares := SplitOutcome(h, secret, n, k, draws).value;
    var chosen := Chosen(shares, picks);
    forall i | 0 <= i < |chosen|
      ensures ServerDecoder(h)(chosen[i]) == Ok(SplitShares(secret, n, k, draws)[picks[i]])
    {
      ShareRoundTrip(h, SplitShares(secret, n, k, draws)[picks[i]]);
    }
    SplitThenCombine(ServerDecoder(h), secret, n, k, draws, chosen, picks);
  }

  /** The browser combines them to the same bytes. */
  lemma QuorumInBrowser(h: Hash, secret: seq<byte>, n: nat, k: nat, draws: Draws, picks: seq<nat>)
    requires secret != [] && 2 <= k <= n <= 255 && ValidDraws(draws, |secret|, k) && Quorum(picks, n, k)
    ensures Rejoin(h, BrowserDecoder(h), secret, n, k, draws, picks) == Ok(secret)
  {
    hide Combined, EncodeShare, ShareBody, ShareText;
    var shares := SplitOutcome(h, secret, n, k, draws).value;
    var chosen := Chosen(shares, picks);
    forall i | 0 <= i < |chosen|
      ensures ShareText(chosen[i])
    {
      EncodedSharesAreShareText(h, SplitShares(secret, n, k, draws)[picks[i]]);
    }
    ImplementationsAgree(h, chosen);
    QuorumOfStrings(h, secret, n, k, draws, picks);
  }

  /** Each string of a split carries the threshold, its own number and a body as long as the secret. */
  lemma SharesDescribeThemselves(h: Hash, secret: seq<byte>, n: nat, k: nat, draws: Draws, i: nat)
    requires secret != [] && 2 <= k <= n <= 255 && ValidDraws(draws, |secret|, k) && i < n
    ensures SplitOutcome(h, secret, n, k, draws).Ok? && |SplitOutcome(h, secret, n, k, draws).value| == n
    ensures var s := SplitOutcome(h, secret, n, k, draws).value[i];
            && ServerDecoder(h)(s).Ok? && BrowserDecoder(h)(s) == ServerDecoder(h)(s)
            && ServerDecoder(h)(s).value.k == k && ServerDecoder(h)(s).value.x == i + 1
            && |ServerDecoder(h)(s).value.body| == |secret|
  {
    hide EncodeShare, DecodeShare, JsDecodeShare, ShareText, Trim, Eval;
    var share := SplitShares(secret, n, k, draws)[i];
    ShareRoundTrip(h, share);
    EncodedSharesAreShareText(h, share);
    ShareTextIsTrimmed(EncodeShare(h, share));
    DecodersAgreeOnShares(h, EncodeShare(h, share));
  }

  /** Fewer shares than the threshold are refused on both sides, however they are picked. */
  lemma BelowQuorumRefused(h: Hash, secret: seq<byte>, n: nat, k: nat, draws: Draws, picks: seq<nat>)
    requires secret != [] && 2 <= k <= n <= 255 && ValidDraws(draws, |secret|, k)
    requires Distinct(picks) && |picks| < k && forall i :: 0 <= i < |picks| ==> picks[i] < n
    ensures SplitOutcome(h, secret, n, k, draws).Ok? && |SplitOutcome(h, secret, n, k, draws).value| == n
    ensures var chosen := Chosen(SplitOutcome(h, secret, n, k, draws).value, picks);
            && Combined(ServerDecoder(h), chosen) == Err(Whole(TooFewShares))
            && Combined(BrowserDecoder(h), chosen) == Err(Whole(TooFewShares))
  {
    SharesDescribeThemselves(h, secret, n, k, draws, 0);
    hide SplitOutcome, Combined, ServerDecoder, BrowserDecoder, Chosen, InOrder;
    var chosen := Chosen(SplitOutcome(h, secret, n, k, draws).value, picks);
    forall i | 0 <= i < |picks|
      ensures ServerDecoder(h)(chosen[i]).Ok? && BrowserDecoder(h)(chosen[i]) == ServerDecoder(h)(chosen[i])
      ensures ServerDecoder(h)(chosen[i]).value.k == k && ServerDecoder(h)(chosen[i]).value.x == picks[i] + 1
      ensures |ServerDecoder(h)(chosen[i]).value.body| == |secret|
    {
      SharesDescribeThemselves(h, secret, n, k, draws, picks[i]);
    }
    PicksInOrder(ServerDecoder(h), chosen, k, |secret|, picks);
    PicksInOrder(BrowserDecoder(h), chosen, k, |secret|, picks);
    TooFewNamed(ServerDecoder(h), chosen);
    TooFewNamed(BrowserDecoder(h), chosen);
  }

  lemma PicksInOrder(decode: Decoder, chosen: seq<string>, k: nat, len: nat, picks: seq<nat>)
    requires |chosen| == |picks| && Distinct(picks)
    requires forall i :: 0 <= i < |picks| ==>
               decode(chosen[i]).Ok? && decode(chosen[i]).value.k == k && decode(chosen[i]).value.x == picks[i] + 1
               && |decode(chosen[i]).value.body| == len
    ensures InOrder(decode, chosen, |chosen|)
  {}

  /**
   * A token that parses, split and combined by any quorum, is rendered back as the identical string
   * exactly when it was canonically spelled; its bytes come back in every case.
   */
  lemma TokenSurvivesSharing(h: Hash, token: string, n: nat, k: nat, draws: Draws, picks: seq<nat>)
    requires ParseToken(token).Ok?
    requires 2 <= k <= n <= 255 && ValidDraws(draws, TOKEN_BYTES, k) && Quorum(picks, n, k)
    ensures Rejoin(h, ServerDecoder(h), ParseToken(token).value, n, k, draws, picks) == Ok(ParseToken(token).value)
    ensures var rejoined := Rejoin(h, ServerDecoder(h), ParseToken(token).value, n, k, draws, picks);
            rejoined.Ok? && (EncodeToken(rejoined.value) == Ok(token) <==> CanonicalToken(token))
  {
    hide Rejoin, EncodeToken, ParseToken, CanonicalToken;
    QuorumOfStrings(h, ParseToken(token).value, n, k, draws, picks);
    EncodeParse(token);
  }

  /** A token as the server issued it comes back as the identical string, from any quorum of its shares. */
  lemma IssuedTokenSurvivesSharing(h: Hash, raw: seq<byte>, n: nat, k: nat, draws: Draws, picks: seq<nat>)
    requires |raw| == TOKEN_BYTES
    requires 2 <= k <= n <= 255 && ValidDraws(draws, TOKEN_BYTES, k) && Quorum(picks, n, k)
    ensures var token := EncodeToken(raw).value;
            var rejoined := Rejoin(h, ServerDecoder(h), raw, n, k, draws, picks);
            ParseToken(token) == Ok(raw) && rejoined.Ok? && EncodeToken(rejoined.value) == Ok(token)
  {
    hide Rejoin, EncodeToken, ParseToken, CanonicalToken;
    IssuedTokensAreCanonical(raw);
    TokenSurvivesSharing(h, EncodeToken(raw).value, n, k, draws, picks);
  }

  /** Every share string the server accepts carries a valid share, so the order of a list never matters. */
  lemma OrderOfStringsIrrelevant(h: Hash, shares: seq<string>, shares': seq<string>)
    requires multiset(shares) == multiset(shares')
    ensures Combined(ServerDecoder(h), shares).Ok? <==> Combined(ServerDecoder(h), shares').Ok?
    ensures Combined(ServerDecoder(h), shares).Ok? ==>
              Combined(ServerDecoder(h), shares') == Combined(ServerDecoder(h), shares)
  {
    hide Combined, DecodeShare;
    assert SoundDecoder(ServerDecoder(h));
    OrderIrrelevant(ServerDecoder(h), shares, shares');
  }

  /** No part of a share goes unguarded: whatever was mistyped, the checksum of some hash shows it. */
  lemma MistypedShare(s: Share, t: Share) returns (h: Hash)
    requires s.Valid() && t.Valid() && s != t
    ensures DecodeShare(h, "sss1." + Text.Decimal(t.k) + "." + Text.Decimal(t.x) + "."
                           + Base64Url.Encode(h([1, s.k as byte, s.x as byte] + s.body)[..4]) + "."
                           + Base64Url.Encode(t.body))
            == Err(ChecksumMismatch)
  {
    h := ChecksumTells(s, t);
    ChecksumBytes(h, s);
    hide Text.Decimal, Base64Url.Encode, Checksum, DecodeShare;
    CorruptionRejected(h, s, t);
  }

  /**
   * A corrupted field shows: a string that spells a different share than the one its checksum was made
   * for is rejected as soon as the two checksums differ.
   */
  lemma CorruptionRejected(h: Hash, s: Share, t: Share)
    requires t.Valid() && Checksum(h, s) != Checksum(h, t)
    ensures DecodeShare(h, SHARE_PREFIX + Text.Decimal(t.k) + "." + Text.Decimal(t.x) + "."
                           + Base64Url.Encode(Checksum(h, s)) + "." + Base64Url.Encode(t.body))
            == Err(ChecksumMismatch)
  {
    hide Fields, Base64Url.Encode, Base64Url.Decode, Checksum, Text.Atoi, Text.Decimal;
    FieldsOfSpelling(Checksum(h, s), t);
    Text.ParseDecimal(t.k);
    Text.ParseDecimal(t.x);
    Base64Url.DecodeEncode(Checksum(h, s));
    Base64Url.DecodeEncode(t.body);
  }
}
