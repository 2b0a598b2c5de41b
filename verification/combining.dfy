/** The meaning of splitting into and combining share strings, for any share decoder. */
module Combining {
  import opened Base64Url
  import opened Gf256
  import opened Polynomials
  import opened ShareCodec
  import opened Sharing
  import opened Wrappers

  // ----- splitting -----

  /** The share with number `x`. */
  function ShareOf(secret: seq<byte>, draws: Draws, k: nat, x: nat): Share
    requires |draws| == |secret|
  {
    Share(k, x, ShareBody(secret, draws, ToByte(x)))
  }

  function SplitShares(secret: seq<byte>, n: nat, k: nat, draws: Draws): (shares: seq<Share>)
    requires |draws| == |secret|
    ensures |shares| == n
  {
    seq(n, i requires 0 <= i < n => ShareOf(secret, draws, k, i + 1))
  }

  // ----- combining -----

  type Decoder = string -> Result<Share, ShamirError>

  /** An error about the whole list, or about the share with a one-based number. */
  datatype CombineError = Whole(error: ShamirError) | AtShare(number: nat, error: ShamirError)

  ghost predicate Repeated(decode: Decoder, shares: seq<string>, i: nat, x: nat)
    requires i <= |shares|
  {
    exists j :: 0 <= j < i && decode(shares[j]).Ok? && decode(shares[j]).value.x == x
  }

  /** What is wrong with share `i`, given that nothing is wrong with the shares before it. */
  ghost function ShareFault(decode: Decoder, shares: seq<string>, i: nat): Option<ShamirError>
    requires i < |shares|
  {
    match decode(shares[i])
    case Err(e) => Some(e)
    case Ok(s) =>
      match decode(shares[0])
      case Err(_) => None
      case Ok(first) =>
        if s.k != first.k then Some(ThresholdMismatch)
        else if |s.body| != |first.body| then Some(LengthMismatch)
        else if Repeated(decode, shares, i, s.x) then Some(DuplicateX)
        else None
  }

  ghost function FirstFault(decode: Decoder, shares: seq<string>, i: nat): (e: Option<CombineError>)
    requires i <= |shares|
    ensures e == None ==> forall j :: i <= j < |shares| ==> ShareFault(decode, shares, j) == None
    ensures e.Some? ==> exists j :: i <= j < |shares|
                          && ShareFault(decode, shares, j).Some?
                          && e.value == AtShare(j + 1, ShareFault(decode, shares, j).value)
    decreases |shares| - i
  {
    if i == |shares| then None
    else
      match ShareFault(decode, shares, i)
      case Some(e) => Some(AtShare(i + 1, e))
      case None => FirstFault(decode, shares, i + 1)
  }

  function Point(r: Result<Share, ShamirError>): seq<byte> {
    match r
    case Err(_) => []
    case Ok(s) => s.body + [ToByte(s.x)]
  }

  function Points(decode: Decoder, shares: seq<string>): (raw: seq<seq<byte>>)
    ensures |raw| == |shares|
  {
    seq(|shares|, i requires 0 <= i < |shares| => Point(decode(shares[i])))
  }

  ghost predicate Faultless(decode: Decoder, shares: seq<string>) {
    forall i :: 0 <= i < |shares| ==> ShareFault(decode, shares, i) == None
  }

  lemma FaultlessPoints(decode: Decoder, shares: seq<string>)
    requires |shares| > 0 && Faultless(decode, shares)
    ensures decode(shares[0]).Ok?
    ensures RawShares(Points(decode, shares), |decode(shares[0]).value.body|)
  {
    assert ShareFault(decode, shares, 0) == None;
    var raw := Points(decode, shares);
    forall i | 0 <= i < |raw|
      ensures |raw[i]| == |decode(shares[0]).value.body| + 1
    {
      assert ShareFault(decode, shares, i) == None;
    }
  }

  /** The outcome of combining: the first fault in list order, else too few shares, else the secret. */
  ghost function Combined(decode: Decoder, shares: seq<string>): Result<seq<byte>, CombineError> {
    if |shares| < 2 then Err(Whole(TooFewShares))
    else
      match FirstFault(decode, shares, 0)
      case Some(e) => Err(e)
      case None =>
        FaultlessPoints(decode, shares);
        var first := decode(shares[0]).value;
        if |shares| < first.k then Err(Whole(TooFewShares))
        else Ok(Recover(Points(decode, shares), |first.body|))
  }

  /** Share `i` being the first with a fault, that fault is the outcome; else the search goes on. */
  lemma FaultDecides(decode: Decoder, shares: seq<string>, i: nat)
    requires 2 <= |shares| && i < |shares| && FirstFault(decode, shares, 0) == FirstFault(decode, shares, i)
    ensures match ShareFault(decode, shares, i)
            case Some(e) => Combined(decode, shares) == Err(AtShare(i + 1, e))
            case None => FirstFault(decode, shares, 0) == FirstFault(decode, shares, i + 1)
  {
    hide Recover, ShareFault;
  }

  /** Without a fault, the number of shares decides. */
  lemma CountDecides(decode: Decoder, shares: seq<string>)
    requires 2 <= |shares| && FirstFault(decode, shares, 0) == FirstFault(decode, shares, |shares|)
    ensures decode(shares[0]).Ok?
    ensures RawShares(Points(decode, shares), |decode(shares[0]).value.body|)
    ensures Combined(decode, shares)
            == if |shares| < decode(shares[0]).value.k then Err(Whole(TooFewShares))
               else Ok(Recover(Points(decode, shares), |decode(shares[0]).value.body|))
  {
    hide Recover, ShareFault;
    FaultlessPoints(decode, shares);
  }

  /** At least two and at least k decodable shares of one threshold and length, with distinct coordinates. */
  ghost predicate Combinable(decode: Decoder, shares: seq<string>) {
    && 2 <= |shares|
    && (forall i :: 0 <= i < |shares| ==> decode(shares[i]).Ok?)
    && var first := decode(shares[0]).value;
    && first.k <= |shares|
    && (forall i :: 0 <= i < |shares| ==>
         decode(shares[i]).value.k == first.k && |decode(shares[i]).value.body| == |first.body|)
    && forall i, j :: 0 <= i < j < |shares| ==> decode(shares[i]).value.x != decode(shares[j]).value.x
  }

  /** Combining succeeds exactly on the combinable lists. */
  lemma SucceedsExactly(decode: Decoder, shares: seq<string>)
    ensures Combined(decode, shares).Ok? <==> Combinable(decode, shares)
    ensures Combinable(decode, shares) ==>
              RawShares(Points(decode, shares), |decode(shares[0]).value.body|)
              && Combined(decode, shares) == Ok(Recover(Points(decode, shares), |decode(shares[0]).value.body|))
  {
    hide Recover;
    if Combinable(decode, shares) {
      forall i | 0 <= i < |shares|
        ensures ShareFault(decode, shares, i) == None
      {}
      FaultlessPoints(decode, shares);
    } else if Combined(decode, shares).Ok? {
      forall i | 0 <= i < |shares|
        ensures decode(shares[i]).Ok?
        ensures decode(shares[i]).value.k == decode(shares[0]).value.k
        ensures |decode(shares[i]).value.body| == |decode(shares[0]).value.body|
      {
        assert ShareFault(decode, shares, 0) == None;
        assert ShareFault(decode, shares, i) == None;
      }
      forall i, j | 0 <= i < j < |shares|
        ensures decode(shares[i]).value.x != decode(shares[j]).value.x
      {
        assert ShareFault(decode, shares, j) == None;
        assert !Repeated(decode, shares, j, decode(shares[j]).value.x);
      }
    }
  }

  /** Two decoders that agree on every listed string combine it to the same outcome. */
  lemma {:induction false} SameFaults(decode: Decoder, decode': Decoder, shares: seq<string>, i: nat)
    requires i <= |shares| && forall j :: 0 <= j < |shares| ==> decode(shares[j]) == decode'(shares[j])
    ensures FirstFault(decode, shares, i) == FirstFault(decode', shares, i)
    decreases |shares| - i
  {
    if i < |shares| {
      forall x: nat
        ensures Repeated(decode, shares, i, x) == Repeated(decode', shares, i, x)
      {}
      SameFaults(decode, decode', shares, i + 1);
    }
  }

  lemma SameOutcome(decode: Decoder, decode': Decoder, shares: seq<string>)
    requires forall j :: 0 <= j < |shares| ==> decode(shares[j]) == decode'(shares[j])
    ensures Combined(decode, shares) == Combined(decode', shares)
  {
    hide Recover;
    SameFaults(decode, decode', shares, 0);
    assert Points(decode, shares) == Points(decode', shares);
  }

  // ----- when two decoders combine alike -----

  /** Share `i` is looked at: none before it is at fault. */
  ghost predicate Reached(decode: Decoder, shares: seq<string>, i: nat)
    requires i <= |shares|
  {
    forall j :: 0 <= j < i ==> ShareFault(decode, shares, j) == None
  }

  /** As long as decoders agree, they find the same faults. */
  lemma SameFaultAt(decode: Decoder, decode': Decoder, shares: seq<string>, i: nat)
    requires i < |shares| && forall j :: 0 <= j <= i ==> decode(shares[j]) == decode'(shares[j])
    ensures ShareFault(decode, shares, i) == ShareFault(decode', shares, i)
  {
    forall x: nat
      ensures Repeated(decode, shares, i, x) == Repeated(decode', shares, i, x)
    {}
  }

  lemma SameReach(decode: Decoder, decode': Decoder, shares: seq<string>, i: nat)
    requires i <= |shares| && forall j :: 0 <= j < i ==> decode(shares[j]) == decode'(shares[j])
    ensures Reached(decode, shares, i) == Reached(decode', shares, i)
  {
    hide ShareFault;
    forall j | 0 <= j < i
      ensures ShareFault(decode, shares, j) == ShareFault(decode', shares, j)
    {
      SameFaultAt(decode, decode', shares, j);
    }
  }

  /** The search goes on to any share that is reached, and stops at the first that is at fault. */
  lemma {:induction false} ReachedFault(decode: Decoder, shares: seq<string>, i: nat)
    requires i <= |shares| && Reached(decode, shares, i)
    ensures FirstFault(decode, shares, 0) == FirstFault(decode, shares, i)
  {
    hide ShareFault;
    if i > 0 { ReachedFault(decode, shares, i - 1); }
  }

  lemma {:induction false} FirstUnreached(decode: Decoder, shares: seq<string>, i: nat) returns (j: nat)
    requires i <= |shares| && !Reached(decode, shares, i)
    ensures j < i && Reached(decode, shares, j) && ShareFault(decode, shares, j).Some?
  {
    hide ShareFault;
    if Reached(decode, shares, i - 1) { j := i - 1; } else { j := FirstUnreached(decode, shares, i - 1); }
  }

  /** A share that only one decoder rejects as malformed, once reached, makes the outcomes differ. */
  lemma DifferenceShows(decode: Decoder, decode': Decoder, shares: seq<string>, i: nat)
    requires 2 <= |shares| && i < |shares| && Reached(decode, shares, i) && Reached(decode', shares, i)
    requires decode(shares[i]) == Err(BadShare) != decode'(shares[i])
    ensures Combined(decode, shares) != Combined(decode', shares)
  {
    ReachedFault(decode, shares, i);
    ReachedFault(decode', shares, i);
    FaultDecides(decode, shares, i);
    FaultDecides(decode', shares, i);
    assert ShareFault(decode, shares, i) == Some(BadShare) != ShareFault(decode', shares, i);
    if ShareFault(decode', shares, i) == None { LaterOutcome(decode', shares, i + 1); }
    hide Combined, ShareFault;
  }

  lemma LaterOutcome(decode: Decoder, shares: seq<string>, i: nat)
    requires 2 <= |shares| && i <= |shares| && FirstFault(decode, shares, 0) == FirstFault(decode, shares, i)
    ensures Combined(decode, shares).Err? && Combined(decode, shares).error.AtShare? ==>
              Combined(decode, shares).error.number > i
  {
    hide ShareFault, Recover;
  }

  lemma FaultHides(decode: Decoder, decode': Decoder, shares: seq<string>, j: nat)
    requires 2 <= |shares| && j < |shares| && Reached(decode, shares, j) && ShareFault(decode, shares, j).Some?
    requires forall i :: 0 <= i <= j ==> decode(shares[i]) == decode'(shares[i])
    ensures Combined(decode, shares) == Combined(decode', shares)
  {
    SameReach(decode, decode', shares, j);
    SameFaultAt(decode, decode', shares, j);
    ReachedFault(decode, shares, j);
    ReachedFault(decode', shares, j);
    hide Combined, ShareFault, Reached;
    FaultDecides(decode, shares, j);
    FaultDecides(decode', shares, j);
  }

  /** The first string on which two decoders differ. */
  lemma {:induction false} FirstDifference(decode: Decoder, decode': Decoder, shares: seq<string>, i: nat)
      returns (j: nat)
    requires i < |shares| && decode(shares[i]) != decode'(shares[i])
    ensures j <= i && decode(shares[j]) != decode'(shares[j])
    ensures forall m :: 0 <= m < j ==> decode(shares[m]) == decode'(shares[m])
  {
    j := i;
    if m :| 0 <= m < i && decode(shares[m]) != decode'(shares[m]) {
      j := FirstDifference(decode, decode', shares, m);
    }
  }

  /**
   * Two decoders that differ only on strings that one of them rejects as malformed and the other does not
   * combine a list to the same outcome if and only if they agree on every share that is reached.
   */
  lemma OutcomesAgreeExactly(decode: Decoder, decode': Decoder, shares: seq<string>)
    requires forall i :: 0 <= i < |shares| && decode(shares[i]) != decode'(shares[i]) ==>
               (decode(shares[i]) == Err(BadShare)) != (decode'(shares[i]) == Err(BadShare))
    ensures Combined(decode, shares) == Combined(decode', shares) <==>
              |shares| < 2
              || forall i :: 0 <= i < |shares| && Reached(decode, shares, i) ==> decode(shares[i]) == decode'(shares[i])
  {
    hide ShareFault, FirstFault, Recover;
    if 2 <= |shares| {
      hide Combined;
      if i :| 0 <= i < |shares| && decode(shares[i]) != decode'(shares[i]) {
        var j := FirstDifference(decode, decode', shares, i);
        SameReach(decode, decode', shares, j);
        if Reached(decode, shares, j) {
          if decode(shares[j]) == Err(BadShare) {
            DifferenceShows(decode, decode', shares, j);
          } else {
            DifferenceShows(decode', decode, shares, j);
          }
        } else {
          var m := FirstUnreached(decode, shares, j);
          FaultHides(decode, decode', shares, m);
          assert forall n :: j <= n <= |shares| ==> !Reached(decode, shares, n);
        }
      } else {
        SameOutcome(decode, decode', shares);
      }
    }
  }

  /** A share is reached that the decoder calls malformed. */
  ghost predicate MeetsMalformed(decode: Decoder, shares: seq<string>) {
    exists i :: 0 <= i < |shares| && Reached(decode, shares, i) && decode(shares[i]) == Err(BadShare)
  }

  /** Combining ends in a malformed-share error exactly when such a share is reached. */
  lemma MalformedEnds(decode: Decoder, shares: seq<string>)
    requires 2 <= |shares|
    ensures (Combined(decode, shares).Err? && Combined(decode, shares).error.error == BadShare)
            <==> MeetsMalformed(decode, shares)
  {
    hide Recover, FirstFault;
    if i :| 0 <= i < |shares| && Reached(decode, shares, i) && decode(shares[i]) == Err(BadShare) {
      ReachedFault(decode, shares, i);
      hide Combined;
      FaultDecides(decode, shares, i);
    } else if !Reached(decode, shares, |shares|) {
      var j := FirstUnreached(decode, shares, |shares|);
      ReachedFault(decode, shares, j);
      hide Combined;
      FaultDecides(decode, shares, j);
    } else {
      ReachedFault(decode, shares, |shares|);
      hide Combined;
      CountDecides(decode, shares);
    }
  }

  /** In a list that combines, every share is reached and decodes. */
  lemma AllReached(decode: Decoder, shares: seq<string>)
    requires Combined(decode, shares).Ok?
    ensures 2 <= |shares| && forall i :: 0 <= i < |shares| ==> decode(shares[i]).Ok? && Reached(decode, shares, i)
  {
    SucceedsExactly(decode, shares);
    hide Recover;
    forall i | 0 <= i < |shares|
      ensures ShareFault(decode, shares, i) == None
    {}
  }

  // ----- every error by its cause -----

  /** The shares before `i` decode, agree on threshold and length, and have distinct coordinates. */
  ghost predicate InOrder(decode: Decoder, shares: seq<string>, i: nat)
    requires i <= |shares|
  {
    && (forall j :: 0 <= j < i ==> decode(shares[j]).Ok?)
    && (forall j :: 0 <= j < i ==>
         && decode(shares[j]).value.k == decode(shares[0]).value.k
         && |decode(shares[j]).value.body| == |decode(shares[0]).value.body|)
    && forall j, l :: 0 <= j < l < i ==> decode(shares[j]).value.x != decode(shares[l]).value.x
  }

  lemma InOrderReached(decode: Decoder, shares: seq<string>, i: nat)
    requires i <= |shares| && InOrder(decode, shares, i)
    ensures Reached(decode, shares, i)
  {
    forall j | 0 <= j < i
      ensures ShareFault(decode, shares, j) == None
    {
      assert decode(shares[0]).Ok? && decode(shares[j]).Ok?;
    }
  }

  /**
   * The first share out of order names the error: its own if it does not decode, else a different threshold,
   * else a different length, else a coordinate seen before.
   */
  lemma FaultNamed(decode: Decoder, shares: seq<string>, i: nat)
    requires 2 <= |shares| && i < |shares| && InOrder(decode, shares, i)
    ensures decode(shares[i]).Err? ==> Combined(decode, shares) == Err(AtShare(i + 1, decode(shares[i]).error))
    ensures decode(shares[i]).Ok? && i > 0 ==>
              var s, first := decode(shares[i]).value, decode(shares[0]).value;
              && (s.k != first.k ==> Combined(decode, shares) == Err(AtShare(i + 1, ThresholdMismatch)))
              && (s.k == first.k && |s.body| != |first.body| ==>
                   Combined(decode, shares) == Err(AtShare(i + 1, LengthMismatch)))
              && (s.k == first.k && |s.body| == |first.body|
                  && (exists j :: 0 <= j < i && decode(shares[j]).value.x == s.x) ==>
                   Combined(decode, shares) == Err(AtShare(i + 1, DuplicateX)))
  {
    InOrderReached(decode, shares, i);
    ReachedFault(decode, shares, i);
    FaultDecides(decode, shares, i);
    hide Combined, FirstFault, Reached;
  }

  /** And without one, only the number of shares can be at fault. */
  lemma TooFewNamed(decode: Decoder, shares: seq<string>)
    ensures |shares| < 2 ==> Combined(decode, shares) == Err(Whole(TooFewShares))
    ensures 2 <= |shares| && InOrder(decode, shares, |shares|) ==>
              (|shares| < decode(shares[0]).value.k <==> Combined(decode, shares) == Err(Whole(TooFewShares)))
  {
    if 2 <= |shares| && InOrder(decode, shares, |shares|) {
      InOrderReached(decode, shares, |shares|);
      ReachedFault(decode, shares, |shares|);
      hide Combined, FirstFault, Reached;
      CountDecides(decode, shares);
    }
  }

  // ----- order -----

  ghost predicate SoundDecoder(decode: Decoder) {
    forall s :: decode(s).Ok? ==> decode(s).value.Valid()
  }

  lemma DistinctPoints(decode: Decoder, shares: seq<string>)
    requires SoundDecoder(decode) && Combinable(decode, shares)
    ensures decode(shares[0]).Ok?
    ensures RawShares(Points(decode, shares), |decode(shares[0]).value.body|)
    ensures Distinct(Coordinates(Points(decode, shares), |decode(shares[0]).value.body|))
  {
    SucceedsExactly(decode, shares);
    var xs := Coordinates(Points(decode, shares), |decode(shares[0]).value.body|);
    hide ToByte, Octet;
    forall i, j | 0 <= i < j < |xs|
      ensures xs[i] != xs[j]
    {
      OctetToByte(decode(shares[i]).value.x);
      OctetToByte(decode(shares[j]).value.x);
    }
  }

  lemma {:induction false} TwoOccurrences<T>(s: seq<T>, x: T)
    requires multiset(s)[x] >= 2
    ensures exists i, j :: 0 <= i < j < |s| && s[i] == s[j] == x
  {
    var m := |s| - 1;
    assert s == s[..m] + [s[m]];
    if s[m] == x {
      assert x in multiset(s[..m]);
      var i :| 0 <= i < m && s[..m][i] == x;
      assert s[i] == s[m] == x;
    } else {
      TwoOccurrences(s[..m], x);
      var i, j :| 0 <= i < j < m && s[..m][i] == s[..m][j] == x;
      assert s[i] == s[j] == x;
    }
  }

  lemma {:induction false} PositionsOfPair<T>(s: seq<T>, i: nat, j: nat)
    requires i < j < |s| && s[i] == s[j]
    ensures multiset(s)[s[i]] >= 2
  {
    assert s == s[..j] + [s[j]] + s[j + 1..];
    assert s[i] in s[..j];
  }

  lemma CombinablePermuted(decode: Decoder, shares: seq<string>, shares': seq<string>)
    requires multiset(shares) == multiset(shares') && Combinable(decode, shares)
    ensures Combinable(decode, shares')
    ensures decode(shares'[0]).value.k == decode(shares[0]).value.k
    ensures |decode(shares'[0]).value.body| == |decode(shares[0]).value.body|
  {
    assert |shares| == |multiset(shares)| == |multiset(shares')| == |shares'|;
    forall i | 0 <= i < |shares'|
      ensures shares'[i] in shares
    {
      assert shares'[i] in multiset(shares');
    }
    forall i, j | 0 <= i < j < |shares'|
      ensures decode(shares'[i]).value.x != decode(shares'[j]).value.x
    {
      if shares'[i] == shares'[j] {
        PositionsOfPair(shares', i, j);
        TwoOccurrences(shares, shares'[i]);
      }
    }
  }

  /** The order in which shares are listed does not matter to a successful combination. */
  lemma OrderIrrelevant(decode: Decoder, shares: seq<string>, shares': seq<string>)
    requires SoundDecoder(decode) && multiset(shares) == multiset(shares')
    ensures Combined(decode, shares).Ok? <==> Combined(decode, shares').Ok?
    ensures Combined(decode, shares).Ok? ==> Combined(decode, shares') == Combined(decode, shares)
  {
    hide Recover, Combinable, Combined;
    SucceedsExactly(decode, shares);
    SucceedsExactly(decode, shares');
    if Combinable(decode, shares) {
      CombinablePermuted(decode, shares, shares');
      DistinctPoints(decode, shares);
      DistinctPoints(decode, shares');
      var raw, raw' := Points(decode, shares), Points(decode, shares');
      assert |shares| == |multiset(shares)| == |multiset(shares')| == |shares'|;
      forall i | 0 <= i < |raw'|
        ensures raw'[i] in raw
      {
        assert shares'[i] in multiset(shares');
        var j :| 0 <= j < |shares| && shares[j] == shares'[i];
        assert raw[j] == raw'[i];
      }
      RecoverPermuted(raw, raw', |decode(shares[0]).value.body|);
    } else if Combinable(decode, shares') {
      CombinablePermuted(decode, shares', shares);
    }
  }

  // ----- split, then combine -----

  /** Any k or more distinct shares of one split, listed in any order, combine to the secret. */
  lemma SplitThenCombine(decode: Decoder, secret: seq<byte>, n: nat, k: nat, draws: Draws, shares: seq<string>,
                         picks: seq<nat>)
    requires secret != [] && 2 <= k <= n <= 255 && ValidDraws(draws, |secret|, k)
    requires k <= |picks| == |shares| && Distinct(picks)
    requires forall i :: 0 <= i < |picks| ==> picks[i] < n
    requires forall i :: 0 <= i < |picks| ==> decode(shares[i]) == Ok(SplitShares(secret, n, k, draws)[picks[i]])
    ensures Combined(decode, shares) == Ok(secret)
  {
    hide Recover, Eval, Combined, ToByte, Octet;
    assert Combinable(decode, shares);
    SucceedsExactly(decode, shares);
    var raw, len := Points(decode, shares), |secret|;
    forall i | 0 <= i < |raw|
      ensures Genuine(secret, draws, raw[i])
    {
      assert raw[i] == ShareBody(secret, draws, ToByte(picks[i] + 1)) + [ToByte(picks[i] + 1)];
    }
    var xs := Coordinates(raw, len);
    forall i, j | 0 <= i < j < |xs|
      ensures xs[i] != xs[j]
    {
      OctetToByte(picks[i] + 1);
      OctetToByte(picks[j] + 1);
    }
    QuorumRecovers(secret, draws, k, raw);
  }
}
