/** Exactly which share strings, and lists of them, the two implementations treat alike. */
module ShareCompat {
  import opened Base64Url
  import opened BrowserBase64
  import opened BrowserShamir
  import opened Combining
  import opened Gf256
  import opened ShareCodec
  import opened Shamir
  import opened Text
  import opened Wrappers

  // ----- what each side reads before it looks at the checksum -----

  datatype Reading = Reading(share: Share, chk: seq<byte>)

  /** A reading in the ranges that a share allows. */
  function Read(k: Option<int>, x: Option<int>, chk: Option<seq<byte>>, body: Option<seq<byte>>): (r: Option<Reading>)
    ensures r.Some? ==> k.Some? && x.Some? && chk.Some? && body.Some?
  {
    if k.Some? && 2 <= k.value <= 255 && x.Some? && 1 <= x.value <= 255
       && chk.Some? && |chk.value| == CHECKSUM_LEN && body.Some? && |body.value| > 0
    then Some(Reading(Share(k.value, x.value, body.value), chk.value)) else None
  }

  function ServerReading(s: string): Option<Reading> {
    var f := Fields(s);
    if f.None? then None
    else Read(Atoi(f.value[0]), Atoi(f.value[1]), Decode(f.value[2]), Decode(f.value[3]))
  }

  function BrowserReading(s: string): Option<Reading> {
    var f := Fields(Trim(s));
    if f.None? then None
    else Read(ParseDigits(f.value[0]), ParseDigits(f.value[1]), JsDecode(f.value[2]), JsDecode(f.value[3]))
  }

  /** The checksum decides over what was read. */
  function Judged(h: Hash, r: Option<Reading>): Result<Share, ShamirError> {
    if r.None? then Err(BadShare)
    else if r.value.chk != Checksum(h, r.value.share) then Err(ChecksumMismatch) else Ok(r.value.share)
  }

  lemma DecodersJudge(h: Hash, s: string)
    ensures ServerDecoder(h)(s) == Judged(h, ServerReading(s))
    ensures BrowserDecoder(h)(s) == Judged(h, BrowserReading(s))
  {
    hide Fields, Atoi, ParseDigits, Decode, JsDecode, Checksum, Trim;
  }

  // ----- trimming -----

  predicate AllTrimmed(w: string) { forall i :: 0 <= i < |w| ==> IsTrimmed(w[i]) }

  /** A string that does not begin with white space loses only its end. */
  lemma {:induction false} TrimEnds(s: string) returns (w: string)
    requires s != "" && !IsTrimmed(s[0])
    ensures s == Trim(s) + w && AllTrimmed(w)
    decreases |s|
  {
    hide IsTrimmed;
    w := "";
    if IsTrimmed(s[|s| - 1]) {
      var m := |s| - 1;
      var v := TrimEnds(s[..m]);
      w := v + [s[m]];
      assert s == s[..m] + [s[m]];
    }
  }

  /** The last piece grows at its end. */
  function WithTail(p: seq<string>, w: string): (q: seq<string>)
    requires |p| > 0
    ensures |q| == |p|
  {
    p[..|p| - 1] + [p[|p| - 1] + w]
  }

  lemma TailAfter(a: string, p: seq<string>, w: string)
    requires |p| > 0
    ensures WithTail([a] + p, w) == [a] + WithTail(p, w)
  {}

  lemma TailOfFirst(c: char, p: seq<string>, w: string)
    requires |p| > 0
    ensures WithTail([[c] + p[0]] + p[1..], w) == [[c] + WithTail(p, w)[0]] + WithTail(p, w)[1..]
  {
    if |p| == 1 { assert [c] + (p[0] + w) == [c] + p[0] + w; }
  }

  lemma {:induction false} SplitTail(a: string, w: string)
    requires NoDots(w)
    ensures SplitDots(a + w) == WithTail(SplitDots(a), w)
  {
    if a == "" {
      SplitNoDots(w);
      assert a + w == w;
    } else {
      SplitTail(a[1..], w);
      assert (a + w)[1..] == a[1..] + w && (a + w)[0] == a[0];
      hide WithTail;
      TailAfter("", SplitDots(a[1..]), w);
      TailOfFirst(a[0], SplitDots(a[1..]), w);
    }
  }

  /** Trimming a prefixed string takes white space off its last field, and changes no other. */
  lemma FieldsTrimmed(s: string) returns (w: string)
    requires SHARE_PREFIX <= s
    ensures AllTrimmed(w) && (Fields(s).Some? <==> Fields(Trim(s)).Some?)
    ensures Fields(s).Some? ==>
              var f, g := Fields(s).value, Fields(Trim(s)).value;
              |f| == |g| == 4 && f == g[..3] + [g[3] + w]
  {
    assert s[0] == 's' && s[4] == '.';
    w := TrimEnds(s);
    var t := Trim(s);
    assert |t| >= 5;
    assert t[..5] == s[..5] && t == SHARE_PREFIX + t[5..];
    assert s[5..] == t[5..] + w;
    assert NoDots(w) by {
      forall i | 0 <= i < |w|
        ensures w[i] != '.'
      {
        assert IsTrimmed(w[i]);
      }
    }
    SplitTail(t[5..], w);
    hide SplitDots, Trim;
  }

  // ----- one string -----

  /** A number field that begins with a plus sign. */
  predicate Signed(s: string) {
    Fields(s).Some? && ((Fields(s).value[0] != "" && Fields(s).value[0][0] == '+')
                        || (Fields(s).value[1] != "" && Fields(s).value[1][0] == '+'))
  }

  /** The prefix in front, and base64 fields of url-safe text, line breaks aside. */
  predicate UrlFields(s: string) {
    Fields(s).Some? && IsUrlText(SkipNewlines(Fields(s).value[2])) && IsUrlText(SkipNewlines(Fields(s).value[3]))
  }

  lemma {:induction false} UrlWhiteSpace(w: string)
    requires AllTrimmed(w) && IsUrlText(SkipNewlines(w))
    ensures SkipNewlines(w) == ""
  {
    if w != "" {
      if w[0] != '\r' && w[0] != '\n' {
        assert IsTrimmed(w[0]) && SkipNewlines(w)[0] == w[0];
        WhiteSpaceIsNoUrlChar(w[0]);
      }
      UrlWhiteSpace(w[1..]);
    }
  }

  lemma WhiteSpaceIsNoUrlChar(c: char)
    requires IsTrimmed(c)
    ensures UrlValue(c) == None
  {}

  lemma UrlTail(a: string, b: string)
    requires IsUrlText(a + b)
    ensures IsUrlText(b)
  {
    hide UrlValue;
    forall i | 0 <= i < |b|
      ensures UrlValue(b[i]).Some?
    {
      assert (a + b)[|a| + i] == b[i];
    }
  }

  /** White space at the end of a field that the server reads is line breaks, and changes nothing. */
  lemma TailUnread(b: string, w: string)
    requires AllTrimmed(w) && IsUrlText(SkipNewlines(b + w))
    ensures SkipNewlines(b + w) == SkipNewlines(b) && Decode(b + w) == Decode(b) == JsDecode(b)
  {
    hide SkipNewlines, JsDecode, IsUrlText, Octets, BytesOf, ValuesOf;
    SkipConcat(b, w);
    UrlTail(SkipNewlines(b), SkipNewlines(w));
    UrlWhiteSpace(w);
    assert SkipNewlines(b) + "" == SkipNewlines(b);
    DecodersAgree(b);
  }

  lemma SignStopsBrowser(s: string)
    ensures s != "" && s[0] == '+' ==> ParseDigits(s) == None
    ensures s == "" ==> Atoi(s) == None
  {}

  /** What the server reads, the browser reads too, unless a number has a plus sign. */
  lemma ServerReadsFirst(s: string)
    requires ServerReading(s).Some?
    ensures BrowserReading(s) == if Signed(s) then None else ServerReading(s)
  {
    var w := FieldsTrimmed(s);
    var f, g := Fields(s).value, Fields(Trim(s)).value;
    hide Fields, Trim, Atoi, ParseDigits, Decode, JsDecode, IsUrlText, SkipNewlines;
    DecodesOnlyUrlText(f[2]);
    DecodesOnlyUrlText(f[3]);
    DecodersAgree(f[2]);
    TailUnread(g[3], w);
    if Signed(s) {
      SignStopsBrowser(f[0]);
      SignStopsBrowser(f[1]);
    } else {
      ParsersAgree(f[0], 2, 255);
      ParsersAgree(f[1], 1, 255);
    }
  }

  /** What the browser reads, the server reads too, exactly if the untrimmed fields are in its own alphabet. */
  lemma BrowserReadsFirst(s: string)
    requires BrowserReading(s).Some?
    ensures ServerReading(s) == if UrlFields(s) then BrowserReading(s) else None
  {
    if SHARE_PREFIX <= s && Fields(s).Some? {
      var w := FieldsTrimmed(s);
      var f, g := Fields(s).value, Fields(Trim(s)).value;
      hide Fields, Trim, Atoi, ParseDigits, Decode, JsDecode, IsUrlText, SkipNewlines;
      DecodesOnlyUrlText(f[2]);
      DecodesOnlyUrlText(f[3]);
      if UrlFields(s) {
        DecodersAgree(f[2]);
        TailUnread(g[3], w);
        SignStopsBrowser(f[0]);
        SignStopsBrowser(f[1]);
        ParsersAgree(f[0], 2, 255);
        ParsersAgree(f[1], 1, 255);
      }
    }
  }

  /**
   * For every hash and every string, the two sides return the same share or the same error if and only if
   * both read it or neither does; which of those it is can be seen from the string.
   */
  lemma DecodersAgreeExactly(h: Hash, s: string)
    ensures BrowserDecoder(h)(s) == ServerDecoder(h)(s) <==> (BrowserReading(s).Some? <==> ServerReading(s).Some?)
    ensures BrowserDecoder(h)(s) != ServerDecoder(h)(s) ==>
              (BrowserDecoder(h)(s) == Err(BadShare)) != (ServerDecoder(h)(s) == Err(BadShare))
    ensures ServerReading(s).Some? ==> (BrowserDecoder(h)(s) == ServerDecoder(h)(s) <==> !Signed(s))
    ensures BrowserReading(s).Some? ==> (BrowserDecoder(h)(s) == ServerDecoder(h)(s) <==> UrlFields(s))
  {
    DecodersJudge(h, s);
    hide ServerReading, BrowserReading, BrowserDecoder, ServerDecoder, Signed, UrlFields, Checksum;
    if ServerReading(s).Some? { ServerReadsFirst(s); }
    if BrowserReading(s).Some? { BrowserReadsFirst(s); }
  }

  lemma SpaceTrimmed(t: string)
    ensures Trim(" " + t) == Trim(t)
  {
    assert (" " + t)[1..] == t;
    hide Trim;
  }

  lemma UnprefixedRefused(h: Hash, t: string)
    ensures ServerDecoder(h)(" " + t) == Err(BadShare)
  {
    assert (" " + t)[0] == ' ' && SHARE_PREFIX[0] == 's';
    hide Atoi, Decode, Checksum, SplitDots;
  }

  /** For every share the browser trims what the server side refuses: a space in front. */
  lemma SpaceInFront(h: Hash, s: Share)
    requires s.Valid()
    ensures BrowserDecoder(h)(" " + EncodeShare(h, s)) == Ok(s)
    ensures ServerDecoder(h)(" " + EncodeShare(h, s)) == Err(BadShare)
  {
    hide EncodeShare, DecodeShare, JsDecodeShare, ShareText, Trim, ServerDecoder;
    var t := EncodeShare(h, s);
    UnprefixedRefused(h, t);
    SpaceTrimmed(t);
    EncodedSharesAreShareText(h, s);
    ShareTextIsTrimmed(t);
    DecodersAgreeOnShares(h, t);
    ShareRoundTrip(h, s);
  }

  // ----- lists -----

  /**
   * On every list the two sides yield the same, share numbers included, if and only if no share is reached
   * that just one of them reads; a share is reached when none before it is at fault.
   */
  lemma ListsAgreeExactly(h: Hash, shares: seq<string>)
    ensures Combined(BrowserDecoder(h), shares) == Combined(ServerDecoder(h), shares) <==>
              |shares| < 2 || forall i :: 0 <= i < |shares| && Reached(ServerDecoder(h), shares, i) ==>
                                (BrowserReading(shares[i]).Some? <==> ServerReading(shares[i]).Some?)
  {
    hide Combined, BrowserReading, ServerReading, Reached, BrowserDecoder, ServerDecoder;
    forall i | 0 <= i < |shares| { DecodersAgreeExactly(h, shares[i]); }
    OutcomesAgreeExactly(ServerDecoder(h), BrowserDecoder(h), shares);
  }

  /** A share is reached that a side does not read. */
  ghost predicate ServerStumbles(h: Hash, shares: seq<string>) {
    exists i :: 0 <= i < |shares| && Reached(ServerDecoder(h), shares, i) && ServerReading(shares[i]) == None
  }

  ghost predicate BrowserStumbles(h: Hash, shares: seq<string>) {
    exists i :: 0 <= i < |shares| && Reached(BrowserDecoder(h), shares, i) && BrowserReading(shares[i]) == None
  }

  lemma StumbleIsMalformed(h: Hash, shares: seq<string>)
    ensures ServerStumbles(h, shares) <==> MeetsMalformed(ServerDecoder(h), shares)
    ensures BrowserStumbles(h, shares) <==> MeetsMalformed(BrowserDecoder(h), shares)
  {
    hide Reached, ServerReading, BrowserReading, BrowserDecoder, ServerDecoder, Checksum;
    forall i | 0 <= i < |shares| { DecodersJudge(h, shares[i]); }
  }

  /**
   * On every list the two sides show the same secret or the same class of error if and only if no share is
   * reached that just one side reads, or each side stumbles over a share that it does not read.
   */
  lemma ClassesAgreeExactly(h: Hash, shares: seq<string>)
    ensures ErrorClass(Combined(BrowserDecoder(h), shares)) == ErrorClass(Combined(ServerDecoder(h), shares)) <==>
              || |shares| < 2
              || (forall i :: 0 <= i < |shares| && Reached(ServerDecoder(h), shares, i) ==>
                   (BrowserReading(shares[i]).Some? <==> ServerReading(shares[i]).Some?))
              || (ServerStumbles(h, shares) && BrowserStumbles(h, shares))
  {
    hide Combined, BrowserReading, ServerReading, Reached, BrowserDecoder, ServerDecoder, ServerStumbles,
            BrowserStumbles;
    ListsAgreeExactly(h, shares);
    if 2 <= |shares| {
      StumbleIsMalformed(h, shares);
      MalformedEnds(ServerDecoder(h), shares);
      MalformedEnds(BrowserDecoder(h), shares);
      if Combined(BrowserDecoder(h), shares) != Combined(ServerDecoder(h), shares) {
        OneStumbles(h, shares);
      }
    }
  }

  /** Where the two sides differ, one of them stumbles. */
  lemma OneStumbles(h: Hash, shares: seq<string>)
    requires 2 <= |shares| && Combined(BrowserDecoder(h), shares) != Combined(ServerDecoder(h), shares)
    ensures MeetsMalformed(ServerDecoder(h), shares) || MeetsMalformed(BrowserDecoder(h), shares)
  {
    hide Combined, BrowserReading, ServerReading, Reached, BrowserDecoder, ServerDecoder;
    forall i | 0 <= i < |shares| { DecodersAgreeExactly(h, shares[i]); }
    OutcomesAgreeExactly(ServerDecoder(h), BrowserDecoder(h), shares);
    var i :| 0 <= i < |shares| && Reached(ServerDecoder(h), shares, i)
             && ServerDecoder(h)(shares[i]) != BrowserDecoder(h)(shares[i]);
    var j := FirstDifference(ServerDecoder(h), BrowserDecoder(h), shares, i);
    ReachedEarlier(ServerDecoder(h), shares, i, j);
    SameReach(ServerDecoder(h), BrowserDecoder(h), shares, j);
  }

  lemma ReachedEarlier(decode: Decoder, shares: seq<string>, i: nat, j: nat)
    requires j <= i <= |shares| && Reached(decode, shares, i)
    ensures Reached(decode, shares, j)
  {
    hide ShareFault;
  }

  lemma SignedUnread(s: string)
    requires ServerReading(s).Some?
    ensures BrowserReading(s).Some? <==> !Signed(s)
  {
    hide ServerReading, BrowserReading, Signed;
    ServerReadsFirst(s);
  }

  lemma AcceptedReadable(h: Hash, s: string)
    ensures ServerDecoder(h)(s).Ok? ==> ServerReading(s).Some?
    ensures BrowserDecoder(h)(s).Ok? ==> BrowserReading(s).Some?
  {
    DecodersJudge(h, s);
    hide ServerReading, BrowserReading, BrowserDecoder, ServerDecoder, Checksum;
  }

  /** A list the server side combines gives the browser the same secret if and only if no number is signed. */
  lemma ServerSecretInBrowser(h: Hash, shares: seq<string>)
    requires Combined(ServerDecoder(h), shares).Ok?
    ensures ErrorClass(Combined(BrowserDecoder(h), shares)) == ErrorClass(Combined(ServerDecoder(h), shares)) <==>
              forall i :: 0 <= i < |shares| ==> !Signed(shares[i])
  {
    hide BrowserReading, ServerReading, BrowserDecoder, ServerDecoder, Signed;
    AllReached(ServerDecoder(h), shares);
    hide Combined;
    ListsAgreeExactly(h, shares);
    forall i | 0 <= i < |shares|
      ensures BrowserReading(shares[i]).Some? <==> ServerReading(shares[i]).Some? && !Signed(shares[i])
      ensures ServerReading(shares[i]).Some?
    {
      AcceptedReadable(h, shares[i]);
      SignedUnread(shares[i]);
    }
  }

  /** A list the browser combines gives the server side the same secret if and only if its fields are the server's. */
  lemma BrowserSecretOnServer(h: Hash, shares: seq<string>)
    requires Combined(BrowserDecoder(h), shares).Ok?
    ensures ErrorClass(Combined(ServerDecoder(h), shares)) == ErrorClass(Combined(BrowserDecoder(h), shares)) <==>
              forall i :: 0 <= i < |shares| ==> UrlFields(shares[i])
  {
    hide BrowserReading, ServerReading, BrowserDecoder, ServerDecoder, UrlFields;
    AllReached(BrowserDecoder(h), shares);
    hide Combined;
    forall i | 0 <= i < |shares|
      ensures BrowserDecoder(h)(shares[i]).Ok?
      ensures BrowserDecoder(h)(shares[i]) == ServerDecoder(h)(shares[i]) <==> UrlFields(shares[i])
      ensures BrowserDecoder(h)(shares[i]) != ServerDecoder(h)(shares[i]) ==>
                (BrowserDecoder(h)(shares[i]) == Err(BadShare)) != (ServerDecoder(h)(shares[i]) == Err(BadShare))
    {
      AcceptedReadable(h, shares[i]);
      DecodersAgreeExactly(h, shares[i]);
    }
    OutcomesAgreeExactly(BrowserDecoder(h), ServerDecoder(h), shares);
  }
}
