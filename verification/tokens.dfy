/** Wrap tokens: "ss." followed by the base64url spelling of 32 bytes. */
module Tokens {
  import opened Base64Url
  import opened BrowserBase64
  import opened Gf256
  import opened Wrappers

  const TOKEN_PREFIX := "ss."
  const TOKEN_BYTES := 32

  datatype TokenError = BadToken

  function ParseToken(token: string): (r: Result<seq<byte>, TokenError>)
    ensures r.Ok? ==> |r.value| == TOKEN_BYTES
  {
    if !(TOKEN_PREFIX <= token) then Err(BadToken)
    else
      var raw := Decode(token[|TOKEN_PREFIX|..]);
      if raw.None? || |raw.value| != TOKEN_BYTES then Err(BadToken) else Ok(raw.value)
  }

  function EncodeToken(raw: seq<byte>): Result<string, TokenError> {
    if |raw| != TOKEN_BYTES then Err(BadToken) else Ok(TOKEN_PREFIX + Encode(raw))
  }

  function TokenToRaw(token: string): Result<seq<byte>, TokenError> {
    if !(TOKEN_PREFIX <= token) then Err(BadToken)
    else
      var raw := JsDecode(token[|TOKEN_PREFIX|..]);
      if raw.None? || |raw.value| != TOKEN_BYTES then Err(BadToken) else Ok(raw.value)
  }

  function RawToToken(raw: seq<byte>): string { TOKEN_PREFIX + JsEncode(raw) }

  /** A string parses to 32 bytes exactly if it is "ss." and a text that decodes to them; likewise in the browser. */
  lemma ParsedExactly(token: string, raw: seq<byte>)
    ensures ParseToken(token) == Ok(raw) <==>
              |raw| == 32 && |token| >= 3 && token[..3] == "ss." && Decode(token[3..]) == Some(raw)
    ensures TokenToRaw(token) == Ok(raw) <==>
              |raw| == 32 && |token| >= 3 && token[..3] == "ss." && JsDecode(token[3..]) == Some(raw)
    ensures |raw| == 32 ==> EncodeToken(raw) == Ok("ss." + Encode(raw)) && RawToToken(raw) == "ss." + JsEncode(raw)
  {
    hide Decode, JsDecode, Encode, JsEncode;
  }

  /** Parsing what was rendered gives the bytes back. */
  lemma ParseEncode(raw: seq<byte>)
    requires |raw| == TOKEN_BYTES
    ensures EncodeToken(raw).Ok? && ParseToken(EncodeToken(raw).value) == Ok(raw)
  {
    hide Encode, Decode;
    DecodeEncode(raw);
    assert (TOKEN_PREFIX + Encode(raw))[|TOKEN_PREFIX|..] == Encode(raw);
  }

  /** The one spelling of a token that `EncodeToken` produces: 43 characters, the last with two zero fill bits. */
  predicate CanonicalToken(token: string) {
    && TOKEN_PREFIX <= token
    && |token| == |TOKEN_PREFIX| + 43
    && IsUrlText(token[|TOKEN_PREFIX|..])
    && UrlValue(token[|token| - 1]).value % 4 == 0
  }

  /** An accepted token is rendered back unchanged exactly when it is canonically spelled. */
  lemma EncodeParse(token: string)
    requires ParseToken(token).Ok?
    ensures EncodeToken(ParseToken(token).value) == Ok(token) <==> CanonicalToken(token)
  {
    hide UrlValue, Encode, Decode, SkipNewlines;
    var text := token[|TOKEN_PREFIX|..];
    EncodeDecode(text);
    assert token == TOKEN_PREFIX + text;
    EncodedLength(ParseToken(token).value);
    assert forall u: string :: TOKEN_PREFIX + u == token ==> u == text by {
      forall u: string | TOKEN_PREFIX + u == token
        ensures u == text
      {
        assert (TOKEN_PREFIX + u)[|TOKEN_PREFIX|..] == u;
      }
    }
  }

  lemma EncodedLength(raw: seq<byte>)
    requires |raw| == TOKEN_BYTES
    ensures |Encode(raw)| == 43
  {}

  /** Both sides render all raw tokens alike. */
  lemma TokensRenderAlike(raw: seq<byte>)
    requires |raw| == TOKEN_BYTES
    ensures EncodeToken(raw) == Ok(RawToToken(raw))
  {
    hide Encode, JsEncode;
    EncodersAgree(raw);
  }

  /** A prefixed string that the browser takes for a token although the server cannot read it. */
  predicate OnlyBrowserParses(token: string) {
    && TOKEN_PREFIX <= token
    && var text := token[|TOKEN_PREFIX|..];
    && !IsUrlText(SkipNewlines(text))
    && BrowserReads(text) && |DropPadding(SkipWhitespace(text))| == 43
  }

  /** Both sides parse a string alike, to the same bytes or to the same error, except exactly for those. */
  lemma TokenParsersAgreeExactly(token: string)
    ensures TokenToRaw(token) == ParseToken(token) <==> !OnlyBrowserParses(token)
  {
    hide Decode, JsDecode, IsUrlText, SkipNewlines, SkipWhitespace, DropPadding, BrowserReads;
    if TOKEN_PREFIX <= token {
      var text := token[|TOKEN_PREFIX|..];
      DecodersAgreeExactly(text);
      JsDecodeExactly(text);
      DecodesOnlyUrlText(text);
    }
  }

  const PLUSES := "+++++++++++++++++++++++++++++++++++++++++++"

  /** There are such strings. */
  lemma PlusesOnlyInBrowser()
    ensures OnlyBrowserParses(TOKEN_PREFIX + PLUSES)
  {
    PlusesRead(PLUSES);
    hide PLUSES, IsUrlText, SkipNewlines, SkipWhitespace, DropPadding, BrowserReads;
    assert (TOKEN_PREFIX + PLUSES)[|TOKEN_PREFIX|..] == PLUSES;
  }

  lemma PlusesRead(text: string)
    requires |text| == 43 && forall i :: 0 <= i < |text| ==> text[i] == '+'
    ensures !IsUrlText(SkipNewlines(text)) && BrowserReads(text) && |DropPadding(SkipWhitespace(text))| == 43
  {
    NoWhitespace(text);
    NoNewlines(text);
    hide SkipNewlines, SkipWhitespace;
    assert UrlValue(text[0]) == None;
  }

  // ----- issued tokens -----

  /** Every token that a server issues is canonically spelled, and so comes back as the identical string. */
  lemma IssuedTokensAreCanonical(raw: seq<byte>)
    requires |raw| == TOKEN_BYTES
    ensures EncodeToken(raw).Ok? && CanonicalToken(EncodeToken(raw).value)
    ensures ParseToken(EncodeToken(raw).value) == Ok(raw)
  {
    hide Encode, Decode, CanonicalToken;
    ParseEncode(raw);
    EncodeParse(EncodeToken(raw).value);
  }

  const STRAY := "AAAAAAAAAAAAAAAAAAAAAAAAAAAAAAAAAAAAAAAAAAB"

  /** Not every accepted token is: the last character may carry stray fill bits. */
  lemma StrayBitsAccepted()
    ensures ParseToken(TOKEN_PREFIX + STRAY).Ok? && !CanonicalToken(TOKEN_PREFIX + STRAY)
  {
    StrayText();
    hide STRAY, UrlValue;
    assert (TOKEN_PREFIX + STRAY)[|TOKEN_PREFIX|..] == STRAY;
    DecodedLength(STRAY);
    hide Decode;
  }

  lemma StrayText()
    ensures |STRAY| == 43 && IsUrlText(STRAY) && UrlValue(STRAY[42]) == Some(1)
  {
    forall i | 0 <= i < |STRAY|
      ensures UrlValue(STRAY[i]).Some?
    {
      assert STRAY[i] == 'A' || STRAY[i] == 'B';
    }
  }

  lemma DecodedLength(t: string)
    requires IsUrlText(t) && |t| % 4 != 1
    ensures Decode(t).Some? && |Decode(t).value| == |t| * 3 / 4
  {
    UrlTextHasNoNewlines(t);
    hide UrlValue;
  }
}
