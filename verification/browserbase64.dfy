/** Base64url in the browser: the platform's btoa and atob with character substitutions around them. */
module BrowserBase64 {
  import opened Gf256
  import opened Wrappers
  import opened Base64Url

  // ----- the platform functions -----

  function StdChars(s: seq<sextet>): (t: string)
    ensures |t| == |s|
  {
    seq(|s|, i requires 0 <= i < |s| => CharIn(s[i], '+', '/'))
  }

  /** Standard base64 with `=` padding to a multiple of four characters. */
  function Btoa(bytes: seq<byte>): string {
    var s := Sextets(OctetsOf(bytes));
    StdChars(s) + (if |s| % 4 == 2 then "==" else if |s| % 4 == 3 then "=" else "")
  }

  predicate IsStdText(t: string) {
    forall i :: 0 <= i < |t| ==> ValueIn(t[i], '+', '/').Some?
  }

  function StdValues(t: string): (s: seq<sextet>)
    requires IsStdText(t)
    ensures |s| == |t|
  {
    seq(|t|, i requires 0 <= i < |t| => ValueIn(t[i], '+', '/').value)
  }

  predicate IsWhitespace(c: char) {
    c == '\t' || c == '\n' || c == '\U{000C}' || c == '\r' || c == ' '
  }

  function SkipWhitespace(s: string): string {
    if s == "" then ""
    else if IsWhitespace(s[0]) then SkipWhitespace(s[1..])
    else [s[0]] + SkipWhitespace(s[1..])
  }

  function DropPadding(s: string): string {
    if |s| % 4 == 0 && |s| > 0 && s[|s| - 1] == '=' then
      if s[|s| - 2] == '=' then s[..|s| - 2] else s[..|s| - 1]
    else s
  }

  /** The forgiving decoder of the HTML standard. */
  function Atob(s: string): Option<seq<byte>> {
    var t := DropPadding(SkipWhitespace(s));
    if IsStdText(t) && |t| % 4 != 1 then Some(BytesOf(Octets(StdValues(t)))) else None
  }

  // ----- the source's wrappers -----

  function Substitute(s: string, a: char, b: char): (t: string)
    ensures |t| == |s|
  {
    seq(|s|, i requires 0 <= i < |s| => if s[i] == a then b else s[i])
  }

  function StripPadding(s: string): (t: string)
  {
    if s != "" && s[|s| - 1] == '=' then StripPadding(s[..|s| - 1]) else s
  }

  function JsEncode(bytes: seq<byte>): string {
    StripPadding(Substitute(Substitute(Btoa(bytes), '+', '-'), '/', '_'))
  }

  function Translate(s: string): (t: string)
    ensures |t| == |s|
  {
    Substitute(Substitute(s, '-', '+'), '_', '/')
  }

  function JsDecode(s: string): Option<seq<byte>> {
    Atob(Translate(s))
  }

  // ----- agreement with the server's codec -----

  lemma SubstituteChar(i: nat)
    requires i < 64
    ensures var c := CharIn(i, '+', '/');
            var d := if c == '+' then '-' else c;
            (if d == '/' then '_' else d) == UrlChar(i) && UrlChar(i) != '='
  {}

  lemma {:induction false} StripAfterText(t: string, pad: string)
    requires forall i :: 0 <= i < |t| ==> t[i] != '='
    requires forall i :: 0 <= i < |pad| ==> pad[i] == '='
    ensures StripPadding(t + pad) == t
  {
    if pad == "" {
      assert t + pad == t;
    } else {
      var m := |pad| - 1;
      assert (t + pad)[..|t| + m] == t + pad[..m];
      StripAfterText(t, pad[..m]);
    }
  }

  /** Both encoders spell every byte string the same way. */
  lemma EncodersAgree(bytes: seq<byte>)
    ensures JsEncode(bytes) == Encode(bytes)
  {
    hide Sextets, CharIn, UrlChar, StripPadding;
    var s := Sextets(OctetsOf(bytes));
    var pad := if |s| % 4 == 2 then "==" else if |s| % 4 == 3 then "=" else "";
    forall i | 0 <= i < |s| { SubstituteChar(s[i]); }
    StripAfterText(CharsOf(s), pad);
    assert Substitute(Substitute(Btoa(bytes), '+', '-'), '/', '_') == CharsOf(s) + pad;
  }

  lemma {:induction false} NoWhitespace(s: string)
    requires forall i :: 0 <= i < |s| ==> !IsWhitespace(s[i])
    ensures SkipWhitespace(s) == s
  {
    if s != "" {
      NoWhitespace(s[1..]);
      assert s == [s[0]] + s[1..];
    }
  }

  // ----- exactly where the decoders agree -----

  predicate IsLooseChar(c: char) { UrlValue(c).Some? || c == '+' || c == '/' }

  /** What the browser accepts: after dropping white space and padding, characters of either alphabet. */
  predicate BrowserReads(t: string) {
    var u := DropPadding(SkipWhitespace(t));
    |u| % 4 != 1 && forall i :: 0 <= i < |u| ==> IsLooseChar(u[i])
  }

  function TranslateChar(c: char): char {
    var d := if c == '-' then '+' else c;
    if d == '_' then '/' else d
  }

  lemma TranslateValue(c: char)
    ensures ValueIn(TranslateChar(c), '+', '/').Some? <==> IsLooseChar(c)
    ensures UrlValue(c).Some? ==> ValueIn(TranslateChar(c), '+', '/') == UrlValue(c) && c != '=' && !IsWhitespace(c)
    ensures IsWhitespace(TranslateChar(c)) <==> IsWhitespace(c)
    ensures TranslateChar(c) == '=' <==> c == '='
    ensures c == '\r' || c == '\n' ==> IsWhitespace(c)
  {}

  lemma TranslateAt(s: string, i: nat)
    requires i < |s|
    ensures Translate(s)[i] == TranslateChar(s[i])
  {}

  lemma {:induction false} TranslateSkips(s: string)
    ensures SkipWhitespace(Translate(s)) == Translate(SkipWhitespace(s))
  {
    hide TranslateChar, IsWhitespace;
    if s != "" {
      TranslateSkips(s[1..]);
      TranslateAt(s, 0);
      TranslateValue(s[0]);
      var t := Translate(s);
      assert t[1..] == Translate(s[1..]);
      var u := SkipWhitespace(s[1..]);
      assert Translate([s[0]] + u) == [TranslateChar(s[0])] + Translate(u) by {
        assert Translate([s[0]])[0] == TranslateChar(s[0]) by { TranslateAt([s[0]], 0); }
      }
    }
  }

  lemma TranslateDrops(s: string)
    ensures DropPadding(Translate(s)) == Translate(DropPadding(s))
  {
    hide TranslateChar;
    if |s| % 4 == 0 && |s| > 0 {
      TranslateAt(s, |s| - 1);
      TranslateValue(s[|s| - 1]);
      TranslateAt(s, |s| - 2);
      TranslateValue(s[|s| - 2]);
      assert Translate(s)[..|s| - 1] == Translate(s[..|s| - 1]);
      assert Translate(s)[..|s| - 2] == Translate(s[..|s| - 2]);
    }
  }

  /** The browser decodes exactly what it reads, to three bytes for every four characters. */
  lemma JsDecodeExactly(t: string)
    ensures JsDecode(t).Some? <==> BrowserReads(t)
    ensures JsDecode(t).Some? ==> |JsDecode(t).value| == |DropPadding(SkipWhitespace(t))| * 3 / 4
  {
    hide Translate, ValueIn, DropPadding, SkipWhitespace, Octets, BytesOf, UrlValue, TranslateChar;
    TranslateSkips(t);
    TranslateDrops(SkipWhitespace(t));
    var u := DropPadding(SkipWhitespace(t));
    forall i | 0 <= i < |u|
      ensures ValueIn(Translate(u)[i], '+', '/').Some? <==> IsLooseChar(u[i])
    {
      TranslateAt(u, i);
      TranslateValue(u[i]);
    }
    assert IsStdText(Translate(u)) <==> forall i :: 0 <= i < |u| ==> IsLooseChar(u[i]) by {
      if IsStdText(Translate(u)) {
        assert forall i :: 0 <= i < |u| ==> ValueIn(Translate(u)[i], '+', '/').Some?;
      }
    }
  }

  /** Text that the server reads: line breaks aside, the url-safe alphabet. */
  lemma {:induction false} OnlyNewlinesSkipped(t: string)
    requires IsUrlText(SkipNewlines(t))
    ensures SkipWhitespace(t) == SkipNewlines(t)
  {
    hide UrlValue;
    if t != "" {
      TranslateValue(t[0]);
      if t[0] != '\r' && t[0] != '\n' {
        assert UrlValue(SkipNewlines(t)[0]).Some?;
        assert SkipNewlines(t)[1..] == SkipNewlines(t[1..]);
        forall i | 0 <= i < |SkipNewlines(t[1..])|
          ensures UrlValue(SkipNewlines(t[1..])[i]).Some?
        {
          assert SkipNewlines(t)[i + 1] == SkipNewlines(t[1..])[i];
        }
      }
      OnlyNewlinesSkipped(t[1..]);
    }
  }

  lemma UrlTextUnpadded(u: string)
    requires IsUrlText(u)
    ensures DropPadding(u) == u
    ensures IsStdText(Translate(u)) && StdValues(Translate(u)) == ValuesOf(u)
  {
    hide UrlValue, ValueIn, TranslateChar;
    forall i | 0 <= i < |u|
      ensures ValueIn(Translate(u)[i], '+', '/') == UrlValue(u[i]) && u[i] != '='
    {
      TranslateAt(u, i);
      TranslateValue(u[i]);
    }
  }

  /** On the server's text, line breaks and stray fill bits included, the decoders agree. */
  lemma DecodersAgree(t: string)
    requires IsUrlText(SkipNewlines(t))
    ensures JsDecode(t) == Decode(t)
  {
    hide UrlValue, ValueIn, SkipNewlines, SkipWhitespace, Octets, BytesOf, DropPadding, Translate;
    OnlyNewlinesSkipped(t);
    TranslateSkips(t);
    TranslateDrops(SkipWhitespace(t));
    UrlTextUnpadded(SkipNewlines(t));
  }

  /** They agree on a string if and only if the server reads it or the browser refuses it too. */
  lemma DecodersAgreeExactly(t: string)
    ensures JsDecode(t) == Decode(t) <==> IsUrlText(SkipNewlines(t)) || !BrowserReads(t)
  {
    hide UrlValue, SkipNewlines, BrowserReads, JsDecode, Octets;
    JsDecodeExactly(t);
    if IsUrlText(SkipNewlines(t)) { DecodersAgree(t); }
  }

  /** Proper padding is dropped, and any other spoils the text. */
  lemma PaddingExactly(t: string)
    requires IsUrlText(t)
    ensures JsDecode(t + "==") == if |t| % 4 == 2 then Decode(t) else None
    ensures JsDecode(t + "=") == if |t| % 4 == 3 then Decode(t) else None
  {
    hide UrlValue, SkipNewlines, SkipWhitespace, Octets, BytesOf, Translate, Decode, Atob;
    PaddedRead(t, "=");
    PaddedRead(t, "==");
  }

  lemma PaddedRead(t: string, pad: string)
    requires IsUrlText(t) && (pad == "=" || pad == "==")
    ensures JsDecode(t + pad) == if (|t| + |pad|) % 4 == 0 && |pad| <= 2 then Decode(t) else None
  {
    hide UrlValue, SkipNewlines, SkipWhitespace, Octets, BytesOf, Translate, Decode, Atob;
    var s := t + pad;
    PaddedUnskipped(t, pad);
    JsDecodeExactly(s);
    UrlTextHasNoNewlines(t);
    DecodersAgree(t);
    if |s| % 4 == 0 {
      PaddedDropped(t, pad);
      SameRead(s, t);
    } else {
      assert DropPadding(s) == s && s[|t|] == '=';
      EqualsIsNoLooseChar();
    }
  }

  lemma EqualsIsNoLooseChar()
    ensures !IsLooseChar('=')
  {}

  lemma PaddedUnskipped(t: string, pad: string)
    requires IsUrlText(t) && (pad == "=" || pad == "==")
    ensures SkipWhitespace(t + pad) == t + pad && SkipWhitespace(t) == t
  {
    hide UrlValue, IsWhitespace;
    forall i | 0 <= i < |t + pad|
      ensures !IsWhitespace((t + pad)[i])
    {
      TranslateValue((t + pad)[i]);
      if i >= |t| { assert (t + pad)[i] == '=' && !IsWhitespace('=') by { EqualsIsNoSpace(); } }
    }
    assert forall i :: 0 <= i < |t| ==> t[i] == (t + pad)[i];
    NoWhitespace(t + pad);
    NoWhitespace(t);
  }

  lemma EqualsIsNoSpace()
    ensures !IsWhitespace('=')
  {}

  lemma PaddedDropped(t: string, pad: string)
    requires IsUrlText(t) && (pad == "=" || pad == "==") && (|t| + |pad|) % 4 == 0
    ensures DropPadding(t + pad) == t && DropPadding(t) == t
  {
    UrlTextUnpadded(t);
    if |t| > 0 { TranslateValue(t[|t| - 1]); }
    hide UrlValue;
    assert (t + pad)[..|t|] == t;
  }

  /** The browser's result depends only on what it reads. */
  lemma SameRead(s: string, t: string)
    requires DropPadding(SkipWhitespace(s)) == DropPadding(SkipWhitespace(t))
    ensures JsDecode(s) == JsDecode(t)
  {
    hide Translate, DropPadding, SkipWhitespace, Octets, BytesOf, ValueIn;
    TranslateSkips(s);
    TranslateSkips(t);
    TranslateDrops(SkipWhitespace(s));
    TranslateDrops(SkipWhitespace(t));
  }

  lemma {:induction false} SkipSpaceConcat(a: string, b: string)
    ensures SkipWhitespace(a + b) == SkipWhitespace(a) + SkipWhitespace(b)
  {
    if a == "" {
      assert a + b == b;
    } else {
      assert (a + b)[1..] == a[1..] + b;
      SkipSpaceConcat(a[1..], b);
    }
  }

  /** Wherever it stands, white space is skipped by the browser: tab, line feed, form feed, return, space. */
  lemma WhiteSpaceSkipped(a: string, c: char, b: string)
    requires c in {'\U{0009}', '\U{000A}', '\U{000C}', '\U{000D}', '\U{0020}'}
    ensures JsDecode(a + [c] + b) == JsDecode(a + b)
  {
    SkipSpaceConcat(a, [c] + b);
    SkipSpaceConcat([c], b);
    SkipSpaceConcat(a, b);
    assert a + [c] + b == a + ([c] + b);
    assert SkipWhitespace([c]) == [];
    SameRead(a + [c] + b, a + b);
  }

  /** For example, the browser accepts the standard alphabet's last two characters. */
  lemma DecodersDiffer()
    ensures JsDecode("++") != Decode("++")
  {
    assert SkipWhitespace("++") == "++" by { assert SkipWhitespace("++"[1..]) == "+"; }
    assert !IsUrlText(SkipNewlines("++")) by {
      NoNewlines("++");
      assert UrlValue("++"[0]) == None;
    }
    DecodersAgreeExactly("++");
  }
}
