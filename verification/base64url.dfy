/**
 * Base64url without padding (RFC 4648, sections 5 and 3.2), as the Go server's
 * encoder and decoder see it.
 */
module Base64Url {
  import opened Gf256
  import opened Wrappers

  function Octet(b: byte): (n: nat)
    ensures n < 256
  {
    b as int
  }

  function ToByte(n: int): byte { (n % 256) as byte }

  lemma ToByteOctet(b: byte)
    ensures ToByte(Octet(b)) == b
  {
    assert Octet(b) % 256 == Octet(b);
  }

  lemma OctetToByte(n: nat)
    requires n < 256
    ensures Octet(ToByte(n)) == n
  {
    assert n % 256 == n;
  }

  // ----- the two alphabets -----

  /** Character `i` of the standard alphabet, with the last two characters as parameters. */
  function CharIn(i: nat, c62: char, c63: char): char
    requires i < 64
  {
    if i < 26 then 'A' + i as char
    else if i < 52 then 'a' + (i - 26) as char
    else if i < 62 then '0' + (i - 52) as char
    else if i == 62 then c62 else c63
  }

  function ValueIn(c: char, c62: char, c63: char): (v: Option<nat>)
    ensures v.Some? ==> v.value < 64
  {
    if 'A' <= c <= 'Z' then Some((c - 'A') as nat)
    else if 'a' <= c <= 'z' then Some((c - 'a') as nat + 26)
    else if '0' <= c <= '9' then Some((c - '0') as nat + 52)
    else if c == c62 then Some(62)
    else if c == c63 then Some(63)
    else None
  }

  function UrlChar(i: nat): char
    requires i < 64
  {
    CharIn(i, '-', '_')
  }

  function UrlValue(c: char): (v: Option<nat>)
    ensures v.Some? ==> v.value < 64
  {
    ValueIn(c, '-', '_')
  }

  const UPPER := "ABCDEFGHIJKLMNOPQRSTUVWXYZ"
  const LOWER := "abcdefghijklmnopqrstuvwxyz"
  const DIGITS := "0123456789"

  /** The alphabets of RFC 4648, tables 1 and 2, in their order. */
  lemma AlphabetInOrder(i: nat)
    requires i < 64
    ensures |UPPER| == |LOWER| == 26 && |DIGITS| == 10
    ensures UrlChar(i) == (UPPER + LOWER + DIGITS + "-_")[i]
    ensures CharIn(i, '+', '/') == (UPPER + LOWER + DIGITS + "+/")[i]
  {
    LettersAndDigits();
    if i < 26 { LetterAt(i); } else if i < 52 { LetterAt(i - 26); } else if i < 62 { DigitCharAt(i - 52); }
    hide UPPER, LOWER, DIGITS;
    InFour(UPPER, LOWER, DIGITS, "-_", i);
    InFour(UPPER, LOWER, DIGITS, "+/", i);
  }

  lemma LettersAndDigits()
    ensures |UPPER| == |LOWER| == 26 && |DIGITS| == 10
  {}

  lemma InFour(a: string, b: string, c: string, d: string, i: nat)
    requires |a| == |b| == 26 && |c| == 10 && |d| == 2 && i < 64
    ensures (a + b + c + d)[i] == if i < 26 then a[i] else if i < 52 then b[i - 26]
                                  else if i < 62 then c[i - 52] else d[i - 62]
  {}

  lemma LetterAt(i: nat)
    requires i < 26
    ensures |UPPER| == |LOWER| == 26 && UPPER[i] == 'A' + i as char && LOWER[i] == 'a' + i as char
  {
    assert i == 0 || i == 1 || i == 2 || i == 3 || i == 4 || i == 5 || i == 6 || i == 7 || i == 8 || i == 9 ||
             i == 10 || i == 11 || i == 12 || i == 13 || i == 14 || i == 15 || i == 16 || i == 17 || i == 18 ||
             i == 19 || i == 20 || i == 21 || i == 22 || i == 23 || i == 24 || i == 25;
  }

  lemma DigitCharAt(i: nat)
    requires i < 10
    ensures |DIGITS| == 10 && DIGITS[i] == '0' + i as char
  {
    assert i == 0 || i == 1 || i == 2 || i == 3 || i == 4 || i == 5 || i == 6 || i == 7 || i == 8 || i == 9;
  }

  lemma UrlCharValue(i: nat)
    requires i < 64
    ensures UrlValue(UrlChar(i)) == Some(i)
  {}

  lemma UrlValueChar(c: char)
    requires UrlValue(c).Some?
    ensures UrlChar(UrlValue(c).value) == c
  {}

  // ----- regrouping eight-bit digits as six-bit digits and back -----

  type octet = n: nat | n < 256
  type sextet = n: nat | n < 64

  function Sextet0(b0: octet): sextet { b0 as nat / 4 }

  function Sextet1(b0: octet, b1: octet): sextet { b0 as nat % 4 * 16 + b1 as nat / 16 }

  function Sextet2(b1: octet, b2: octet): sextet { b1 as nat % 16 * 4 + b2 as nat / 64 }

  function Sextet3(b2: octet): sextet { b2 as nat % 64 }

  function Octet0(s0: sextet, s1: sextet): octet { s0 as nat * 4 + s1 as nat / 16 }

  function Octet1(s1: sextet, s2: sextet): octet { s1 as nat % 16 * 16 + s2 as nat / 4 }

  function Octet2(s2: sextet, s3: sextet): octet { s2 as nat % 4 * 64 + s3 as nat }

  /** Whole three-byte groups first, then one or two left-over bytes with zero fill bits. */
  function Sextets(b: seq<octet>): (s: seq<sextet>)
    ensures |s| == (|b| * 4 + 2) / 3
  {
    if |b| == 0 then []
    else if |b| == 1 then [Sextet0(b[0]), Sextet1(b[0], 0)]
    else if |b| == 2 then [Sextet0(b[0]), Sextet1(b[0], b[1]), Sextet2(b[1], 0)]
    else [Sextet0(b[0]), Sextet1(b[0], b[1]), Sextet2(b[1], b[2]), Sextet3(b[2])] + Sextets(b[3..])
  }

  lemma GroupLength(n: nat)
    requires n >= 4
    ensures (n - 4) * 3 / 4 + 3 == n * 3 / 4 && (n - 4) % 4 == n % 4
  {}

  /** The fill bits of a short last group are dropped unread. */
  function Octets(s: seq<sextet>): (b: seq<octet>)
    requires |s| % 4 != 1
    ensures |b| == |s| * 3 / 4
  {
    if |s| == 0 then []
    else if |s| == 2 then [Octet0(s[0], s[1])]
    else if |s| == 3 then [Octet0(s[0], s[1]), Octet1(s[1], s[2])]
    else
      GroupLength(|s|);
      [Octet0(s[0], s[1]), Octet1(s[1], s[2]), Octet2(s[2], s[3])] + Octets(s[4..])
  }

  // A missing digit counts as zero.
  function ByteAt(b: seq<octet>, i: nat): octet { if i < |b| then b[i] else 0 }

  function DigitAt(s: seq<sextet>, i: nat): sextet { if i < |s| then s[i] else 0 }

  /** The 24-bit number of group `g`, read off the bytes. */
  function GroupOfBytes(b: seq<octet>, g: nat): nat {
    ByteAt(b, 3 * g) as nat * 0x10000 + ByteAt(b, 3 * g + 1) as nat * 0x100 + ByteAt(b, 3 * g + 2) as nat
  }

  /** The 24-bit number of group `g`, read off the six-bit digits. */
  function GroupOfDigits(s: seq<sextet>, g: nat): nat {
    DigitAt(s, 4 * g) as nat * 0x40000 + DigitAt(s, 4 * g + 1) as nat * 0x1000
    + DigitAt(s, 4 * g + 2) as nat * 0x40 + DigitAt(s, 4 * g + 3) as nat
  }

  /** Every group of up to three bytes is the 24-bit number its digits spell (RFC 4648, section 4). */
  lemma {:induction false} DigitsSpellBytes(b: seq<octet>, g: nat)
    ensures GroupOfDigits(Sextets(b), g) == GroupOfBytes(b, g)
    decreases g
  {
    hide Sextets;
    if |b| < 3 {
      ShortGroupDigits(b);
    } else if g == 0 {
      SextetsStep(b);
      GroupNumber(b[0], b[1], b[2]);
    } else {
      SextetsStep(b);
      DigitsSpellBytes(b[3..], g - 1);
      LaterGroup(b, Sextets(b), g);
    }
  }

  lemma GroupNumber(b0: octet, b1: octet, b2: octet)
    ensures Sextet0(b0) as nat * 0x40000 + Sextet1(b0, b1) as nat * 0x1000 + Sextet2(b1, b2) as nat * 0x40
            + Sextet3(b2) as nat == b0 as nat * 0x10000 + b1 as nat * 0x100 + b2 as nat
  {}

  lemma ShortGroupDigits(b: seq<octet>)
    requires |b| < 3
    ensures Sextets(b) == (if |b| == 0 then [] else if |b| == 1 then [Sextet0(b[0]), Sextet1(b[0], 0)]
                           else [Sextet0(b[0]), Sextet1(b[0], b[1]), Sextet2(b[1], 0)])
  {
    hide Sextet0, Sextet1, Sextet2, Sextet3;
  }

  lemma LaterGroup(b: seq<octet>, s: seq<sextet>, g: nat)
    requires |b| >= 3 && |s| >= 4 && g > 0
    ensures GroupOfBytes(b, g) == GroupOfBytes(b[3..], g - 1)
    ensures GroupOfDigits(s, g) == GroupOfDigits(s[4..], g - 1)
  {}

  lemma GroupRoundTrip(b0: octet, b1: octet, b2: octet)
    ensures Octet0(Sextet0(b0), Sextet1(b0, b1)) == b0
    ensures Octet1(Sextet1(b0, b1), Sextet2(b1, b2)) == b1
    ensures Octet2(Sextet2(b1, b2), Sextet3(b2)) == b2
  {}

  lemma DigitsRoundTrip(s0: sextet, s1: sextet, s2: sextet, s3: sextet)
    ensures Sextet0(Octet0(s0, s1)) == s0
    ensures Sextet1(Octet0(s0, s1), Octet1(s1, s2)) == s1
    ensures Sextet2(Octet1(s1, s2), Octet2(s2, s3)) == s2
    ensures Sextet3(Octet2(s2, s3)) == s3
    ensures Sextet1(Octet0(s0, s1), 0) == s1 <==> s1 as nat % 16 == 0
    ensures Sextet2(Octet1(s1, s2), 0) == s2 <==> s2 as nat % 4 == 0
  {}

  lemma OctetsOfShort(b: seq<octet>)
    requires |b| < 3
    ensures |Sextets(b)| % 4 != 1 && Octets(Sextets(b)) == b
  {
    hide Sextet0, Sextet1, Sextet2, Sextet3, Octet0, Octet1, Octet2;
    if |b| == 1 { GroupRoundTrip(b[0], 0, 0); }
    if |b| == 2 { GroupRoundTrip(b[0], b[1], 0); }
  }

  lemma {:induction false} OctetsOfSextets(b: seq<octet>)
    ensures |Sextets(b)| % 4 != 1 && Octets(Sextets(b)) == b
  {
    if |b| < 3 {
      OctetsOfShort(b);
    } else {
      hide *;
      OctetsOfSextets(b[3..]);
      SextetsStep(b);
      var s, t := Sextets(b), Sextets(b[3..]);
      assert |s| == |t| + 4 && s[4..] == t;
      OctetsStep(s);
      GroupRoundTrip(b[0], b[1], b[2]);
      assert Octets(s) == b[..3] + b[3..];
    }
  }

  /** A short last group ends in zero fill bits. */
  predicate ZeroFill(s: seq<sextet>) {
    && |s| % 4 != 1
    && (|s| % 4 == 2 ==> s[|s| - 1] as nat % 16 == 0)
    && (|s| % 4 == 3 ==> s[|s| - 1] as nat % 4 == 0)
  }

  lemma {:induction false} SextetsOfOctets(s: seq<sextet>)
    requires |s| % 4 != 1
    ensures Sextets(Octets(s)) == s <==> ZeroFill(s)
  {
    hide Sextets, Octets;
    if |s| < 4 {
      ShortGroup(s);
    } else {
      SextetsOfOctets(s[4..]);
      WholeGroup(s, s[4..]);
      assert ZeroFill(s) <==> ZeroFill(s[4..]);
      hide *;
      var t := s[..4] + Sextets(Octets(s[4..]));
      assert s == s[..4] + s[4..] && t[4..] == Sextets(Octets(s[4..]));
    }
  }

  lemma ShortGroup(s: seq<sextet>)
    requires |s| == 0 || |s| == 2 || |s| == 3
    ensures |s| % 4 != 1 && (Sextets(Octets(s)) == s <==> ZeroFill(s))
  {
    hide Sextets, Octets, ZeroFill;
    if |s| == 2 {
      assert s == [s[0], s[1]];
      TwoDigits(s[0], s[1]);
    } else if |s| == 3 {
      assert s == [s[0], s[1], s[2]];
      ThreeDigits(s[0], s[1], s[2]);
    } else {
      assert s == [];
      NoDigits();
    }
  }

  lemma NoDigits()
    ensures Sextets(Octets([])) == [] && ZeroFill([])
  {}

  lemma TwoDigits(s0: sextet, s1: sextet)
    ensures Sextets(Octets([s0, s1])) == [s0, s1] <==> ZeroFill([s0, s1])
  {
    hide Sextet0, Sextet1, Sextet2, Sextet3, Octet0, Octet1, Octet2;
    DigitsRoundTrip(s0, s1, 0, 0);
  }

  lemma ThreeDigits(s0: sextet, s1: sextet, s2: sextet)
    ensures Sextets(Octets([s0, s1, s2])) == [s0, s1, s2] <==> ZeroFill([s0, s1, s2])
  {
    hide Sextet0, Sextet1, Sextet2, Sextet3, Octet0, Octet1, Octet2;
    DigitsRoundTrip(s0, s1, s2, 0);
  }

  lemma WholeGroup(s: seq<sextet>, t: seq<sextet>)
    requires 4 <= |s| && t == s[4..] && |s| % 4 != 1 && |t| % 4 != 1
    ensures Sextets(Octets(s)) == s[..4] + Sextets(Octets(t))
  {
    hide *;
    var b := Octets(s);
    OctetsStep(s);
    SextetsStep(b);
    DigitsRoundTrip(s[0], s[1], s[2], s[3]);
    assert s[..4] == [s[0], s[1], s[2], s[3]];
  }

  lemma OctetsStep(s: seq<sextet>)
    requires 4 <= |s| && |s| % 4 != 1
    ensures |Octets(s)| >= 3 && Octets(s)[3..] == Octets(s[4..])
    ensures Octets(s)[0] == Octet0(s[0], s[1]) && Octets(s)[1] == Octet1(s[1], s[2])
    ensures Octets(s)[2] == Octet2(s[2], s[3])
  {
    hide Octet0, Octet1, Octet2;
  }

  lemma SextetsStep(b: seq<octet>)
    requires 3 <= |b|
    ensures Sextets(b) == [Sextet0(b[0]), Sextet1(b[0], b[1]), Sextet2(b[1], b[2]), Sextet3(b[2])] + Sextets(b[3..])
  {
    hide Sextet0, Sextet1, Sextet2, Sextet3;
  }

  // ----- characters and bytes -----

  function OctetsOf(bytes: seq<byte>): (b: seq<octet>)
    ensures |b| == |bytes|
  {
    seq(|bytes|, i requires 0 <= i < |bytes| => Octet(bytes[i]))
  }

  function BytesOf(b: seq<octet>): (bytes: seq<byte>)
    ensures |bytes| == |b|
  {
    seq(|b|, i requires 0 <= i < |b| => ToByte(b[i]))
  }

  function CharsOf(s: seq<sextet>): (t: string)
    ensures |t| == |s|
  {
    seq(|s|, i requires 0 <= i < |s| => UrlChar(s[i]))
  }

  predicate IsUrlText(t: string) {
    forall i :: 0 <= i < |t| ==> UrlValue(t[i]).Some?
  }

  function ValuesOf(t: string): (s: seq<sextet>)
    requires IsUrlText(t)
    ensures |s| == |t|
  {
    seq(|t|, i requires 0 <= i < |t| => UrlValue(t[i]).value)
  }

  lemma BytesOfOctets(bytes: seq<byte>)
    ensures BytesOf(OctetsOf(bytes)) == bytes
  {
    hide Octet, ToByte;
    forall i | 0 <= i < |bytes| { ToByteOctet(bytes[i]); }
  }

  lemma OctetsOfBytes(b: seq<octet>)
    ensures OctetsOf(BytesOf(b)) == b
  {
    hide Octet, ToByte;
    forall i | 0 <= i < |b| { OctetToByte(b[i]); }
  }

  lemma ValuesOfChars(s: seq<sextet>)
    ensures IsUrlText(CharsOf(s)) && ValuesOf(CharsOf(s)) == s
  {
    hide UrlChar, UrlValue;
    forall i | 0 <= i < |s| { UrlCharValue(s[i]); }
  }

  lemma CharsOfValues(t: string)
    requires IsUrlText(t)
    ensures CharsOf(ValuesOf(t)) == t
  {
    hide UrlChar, UrlValue;
    forall i | 0 <= i < |t| { UrlValueChar(t[i]); }
  }

  // ----- the codec -----

  function Encode(bytes: seq<byte>): string {
    CharsOf(Sextets(OctetsOf(bytes)))
  }

  /** Go's decoder skips carriage returns and line feeds wherever they stand. */
  function SkipNewlines(s: string): (t: string)
    ensures |t| <= |s|
  {
    if s == "" then ""
    else if s[0] == '\r' || s[0] == '\n' then SkipNewlines(s[1..])
    else [s[0]] + SkipNewlines(s[1..])
  }

  function Decode(s: string): Option<seq<byte>> {
    var t := SkipNewlines(s);
    if IsUrlText(t) && |t| % 4 != 1 then Some(BytesOf(Octets(ValuesOf(t)))) else None
  }

  lemma {:induction false} NoNewlines(s: string)
    requires forall i :: 0 <= i < |s| ==> s[i] != '\r' && s[i] != '\n'
    ensures SkipNewlines(s) == s
  {
    if s != "" {
      NoNewlines(s[1..]);
      assert s == [s[0]] + s[1..];
    }
  }

  lemma UrlTextHasNoNewlines(s: string)
    requires IsUrlText(s)
    ensures SkipNewlines(s) == s
  {
    forall i | 0 <= i < |s|
      ensures s[i] != '\r' && s[i] != '\n'
    {
      assert UrlValue(s[i]).Some?;
    }
    NoNewlines(s);
  }

  lemma {:induction false} SkipConcat(a: string, b: string)
    ensures SkipNewlines(a + b) == SkipNewlines(a) + SkipNewlines(b)
  {
    if a == "" {
      assert a + b == b;
    } else {
      assert (a + b)[1..] == a[1..] + b;
      SkipConcat(a[1..], b);
    }
  }

  /** Line breaks are skipped wherever they stand, and nothing else is. */
  lemma LineBreakSkipped(a: string, c: char, b: string)
    ensures c == '\r' || c == '\n' ==> Decode(a + [c] + b) == Decode(a + b)
    ensures Decode(a + [c] + b).Some? ==> c == '\r' || c == '\n' || UrlValue(c).Some?
  {
    hide UrlValue, Octets, BytesOf, ValuesOf;
    SkipConcat(a, [c] + b);
    SkipConcat([c], b);
    SkipConcat(a, b);
    assert a + [c] + b == a + ([c] + b);
    assert SkipNewlines([c]) == if c == '\r' || c == '\n' then [] else [c];
    if c != '\r' && c != '\n' {
      assert SkipNewlines(a + [c] + b)[|SkipNewlines(a)|] == c;
    }
  }

  lemma DecodesOnlyUrlText(t: string)
    ensures Decode(t).Some? ==> IsUrlText(SkipNewlines(t))
  {}

  /** Decoding an encoding gives the bytes back. */
  lemma DecodeEncode(bytes: seq<byte>)
    ensures Decode(Encode(bytes)) == Some(bytes)
  {
    hide Sextets, Octets, CharsOf, ValuesOf, BytesOf, OctetsOf, IsUrlText, SkipNewlines;
    var b := OctetsOf(bytes);
    OctetsOfSextets(b);
    ValuesOfChars(Sextets(b));
    UrlTextHasNoNewlines(Encode(bytes));
    BytesOfOctets(bytes);
  }

  /** The spellings the encoder produces: alphabet characters only, and zero fill bits. */
  predicate Canonical(s: string) {
    IsUrlText(s) && ZeroFill(ValuesOf(s))
  }

  /** Of all accepted spellings, exactly the canonical ones survive a decode followed by an encode. */
  lemma EncodeDecode(s: string)
    requires Decode(s).Some?
    ensures Encode(Decode(s).value) == s <==> Canonical(s)
  {
    hide Sextets, Octets, CharsOf, ValuesOf, BytesOf, OctetsOf, IsUrlText, SkipNewlines, ZeroFill;
    var t := SkipNewlines(s);
    var v := ValuesOf(t);
    OctetsOfBytes(Octets(v));
    ValuesOfChars(Sextets(Octets(v)));
    SextetsOfOctets(v);
    CharsOfValues(t);
    if IsUrlText(s) { UrlTextHasNoNewlines(s); }
  }
}
