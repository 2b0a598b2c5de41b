/** The ideal token bucket, its window bounds, and what a sequence of calls on a limiter charges and answers. */
module TokenBucket {
  type Key = string

  function Min(a: real, b: real): real { if a < b then a else b }

  /** The tokens that accrue in `d` seconds. */
  function Accrued(rate: real, d: real): real { rate * d }

  lemma AccruedLaws(rate: real, a: real, b: real)
    requires rate >= 0.0
    ensures Accrued(rate, a + b) == Accrued(rate, a) + Accrued(rate, b)
    ensures a >= 0.0 ==> Accrued(rate, a) >= 0.0
    ensures a <= b ==> Accrued(rate, a) <= Accrued(rate, b)
    ensures Accrued(rate, 0.0) == 0.0
  {}

  datatype Params = Params(rate: real, burst: real) {
    predicate Valid() { rate >= 0.0 && burst >= 0.0 }
  }

  /** The balance at `now` of a bucket that starts full and was charged one token at each of the given times. */
  function Level(p: Params, charges: seq<real>, now: real): real {
    if charges == [] then p.burst
    else
      var m := |charges| - 1;
      Min(p.burst, Level(p, charges[..m], charges[m]) - 1.0 + Accrued(p.rate, now - charges[m]))
  }

  predicate Ordered(charges: seq<real>) {
    forall i, j :: 0 <= i <= j < |charges| ==> charges[i] <= charges[j]
  }

  lemma LevelAtMostBurst(p: Params, charges: seq<real>, now: real)
    ensures Level(p, charges, now) <= p.burst
  {}

  lemma LevelGrows(p: Params, charges: seq<real>, now: real, later: real)
    requires p.Valid() && now <= later
    ensures Level(p, charges, now) <= Level(p, charges, later)
  {
    if charges != [] {
      var last := charges[|charges| - 1];
      AccruedLaws(p.rate, now - last, later - last);
    }
  }

  // ----- the balance in closed form -----

  /** The balance that the charges from position `i` on would leave of a full bucket. */
  function Left(p: Params, charges: seq<real>, i: nat, now: real): real
    requires i < |charges|
  {
    p.burst - (|charges| - i) as real + p.rate * (now - charges[i])
  }

  lemma LeftOn(p: Params, charges: seq<real>, i: nat, now: real)
    requires i < |charges| - 1
    ensures var m := |charges| - 1;
            Left(p, charges, i, now) == Left(p, charges[..m], i, charges[m]) - 1.0 + Accrued(p.rate, now - charges[m])
  {
    var m := |charges| - 1;
    assert p.rate * (now - charges[i]) == p.rate * (charges[m] - charges[i]) + p.rate * (now - charges[m]);
  }

  lemma LeftLast(p: Params, charges: seq<real>, now: real)
    requires charges != []
    ensures var m := |charges| - 1;
            Left(p, charges, m, now) == p.burst - 1.0 + Accrued(p.rate, now - charges[m])
  {}

  /**
   * The balance is the least of the burst and of what the charges since each charge, itself included, would
   * leave: it is at least x if and only if all of these are.
   */
  lemma {:induction false} BalanceExactly(p: Params, charges: seq<real>, now: real, x: real)
    ensures Level(p, charges, now) >= x <==>
              p.burst >= x && forall i :: 0 <= i < |charges| ==> Left(p, charges, i, now) >= x
  {
    if charges != [] {
      var m := |charges| - 1;
      var before, then', gain := charges[..m], charges[m], Accrued(p.rate, now - charges[m]);
      BalanceExactly(p, before, then', x + 1.0 - gain);
      LeftLast(p, charges, now);
      forall i | 0 <= i < m
        ensures Left(p, charges, i, now) == Left(p, before, i, then') - 1.0 + gain
      {
        LeftOn(p, charges, i, now);
      }
      LevelOn(p, charges, now, x);
      hide Left, Accrued, Level;
    }
  }

  lemma LevelOn(p: Params, charges: seq<real>, now: real, x: real)
    requires charges != []
    ensures var m := |charges| - 1;
            Level(p, charges, now) >= x <==>
              p.burst >= x && Level(p, charges[..m], charges[m]) >= x + 1.0 - Accrued(p.rate, now - charges[m])
  {
    hide Accrued;
  }

  /** A bucket that is left alone refills: after as many tokens accrued as were ever charged it is full. */
  lemma RefillsInTime(p: Params, charges: seq<real>, now: real)
    requires p.Valid() && Ordered(charges) && charges != []
    requires p.rate * (now - charges[|charges| - 1]) >= |charges| as real
    ensures Level(p, charges, now) == p.burst
  {
    var last := charges[|charges| - 1];
    forall i | 0 <= i < |charges|
      ensures Left(p, charges, i, now) >= p.burst
    {
      var gain, pause := Accrued(p.rate, now - charges[i]), Accrued(p.rate, now - last);
      assert Left(p, charges, i, now) == p.burst - (|charges| - i) as real + gain && pause >= |charges| as real;
      AccruedLaws(p.rate, now - last, now - charges[i]);
      hide Left, Accrued;
      assert charges[i] <= last && gain >= pause;
      assert (|charges| - i) as real <= |charges| as real;
    }
    BalanceExactly(p, charges, now, p.burst);
    LevelAtMostBurst(p, charges, now);
  }

  // ----- window bounds -----

  /** After the charges i..j-1 the balance has lost their number and gained at most what accrued meanwhile. */
  lemma {:induction false} SpentInWindow(p: Params, charges: seq<real>, i: nat, j: nat)
    requires p.Valid() && Ordered(charges) && i < j <= |charges|
    ensures Level(p, charges[..j], charges[j - 1])
            <= p.burst + Accrued(p.rate, charges[j - 1] - charges[i]) - (j - i) as real
    decreases j
  {
    hide Accrued;
    var m := j - 1;
    assert charges[..j][..m] == charges[..m] && charges[..j][m] == charges[m];
    AccruedLaws(p.rate, 0.0, 0.0);
    if i == m {
      LevelAtMostBurst(p, charges[..m], charges[m]);
    } else {
      SpentInWindow(p, charges, i, m);
      var before, gap := charges[m - 1], charges[m] - charges[m - 1];
      assert charges[..m][..m - 1] == charges[..m - 1] && charges[..m][m - 1] == before;
      AccruedLaws(p.rate, before - charges[i], gap);
      assert before - charges[i] + gap == charges[m] - charges[i];
      // over the gap the bucket gains no more than what accrues
      LevelAtMostBurst(p, charges[..m - 1], before);
      assert Level(p, charges[..m], charges[m])
          <= Level(p, charges[..m - 1], before) - 1.0 + Accrued(p.rate, gap);
      assert Level(p, charges[..m], before) == Level(p, charges[..m - 1], before) - 1.0;
    }
  }

  /**
   * If the balance never falls below -c, then the charges in any window of length d number at most
   * burst + c + rate * d.
   */
  lemma WindowBound(p: Params, charges: seq<real>, i: nat, j: nat, c: real, d: real)
    requires p.Valid() && Ordered(charges) && i < j <= |charges|
    requires Level(p, charges[..j], charges[j - 1]) >= -c
    requires charges[j - 1] - charges[i] <= d
    ensures (j - i) as real <= p.burst + c + p.rate * d
  {
    SpentInWindow(p, charges, i, j);
    AccruedLaws(p.rate, charges[j - 1] - charges[i], d);
  }

  // ----- calls on a limiter -----

  datatype Kind = Allow | Take | PeekOK

  datatype Call = Call(kind: Kind, key: Key, at: real)

  /** The times at which calls charged a key: takes always, allows when a whole token was there. */
  function Charges(p: Params, calls: seq<Call>, key: Key): seq<real> {
    if calls == [] then []
    else
      var m := |calls| - 1;
      var call, before := calls[m], Charges(p, calls[..m], key);
      if call.key == key && (call.kind == Take || (call.kind == Allow && Level(p, before, call.at) >= 1.0))
      then before + [call.at] else before
  }

  /** What the ideal bucket answers to call `i`. */
  function Answer(p: Params, calls: seq<Call>, i: nat): bool
    requires i < |calls|
  {
    var level := Level(p, Charges(p, calls[..i], calls[i].key), calls[i].at);
    match calls[i].kind
    case Allow => level >= 1.0
    case PeekOK => level >= 0.0
    case Take => true
  }

  /** What a call does to a key's charges: a take charges, an allow charges exactly if it admits, a peek never. */
  lemma ChargedExactly(p: Params, calls: seq<Call>, i: nat, key: Key)
    requires i < |calls|
    ensures Charges(p, calls[..i + 1], key) == Charges(p, calls[..i], key)
              + if calls[i].key == key && (calls[i].kind == Take || (calls[i].kind == Allow && Answer(p, calls, i)))
                then [calls[i].at] else []
  {
    hide Level;
    assert calls[..i + 1][..i] == calls[..i];
  }

  /** The charges since the j-th, itself and `extra` more included, fit into the burst and what accrued since. */
  predicate Fits(p: Params, cs: seq<real>, j: nat, now: real, extra: nat)
    requires j < |cs|
  {
    (|cs| - j + extra) as real <= p.burst + p.rate * (now - cs[j])
  }

  lemma FitsIsLeft(p: Params, cs: seq<real>, j: nat, now: real, extra: nat)
    requires j < |cs|
    ensures Fits(p, cs, j, now, extra) <==> Left(p, cs, j, now) >= extra as real
  {
    assert (|cs| - j + extra) as real == (|cs| - j) as real + extra as real;
  }

  /** No window of charges that ends now is overdrawn by `extra` more. */
  predicate NoneOverdrawn(p: Params, cs: seq<real>, now: real, extra: nat) {
    extra as real <= p.burst && forall j :: 0 <= j < |cs| ==> Fits(p, cs, j, now, extra)
  }

  lemma LevelFits(p: Params, cs: seq<real>, now: real, extra: nat)
    ensures Level(p, cs, now) >= extra as real <==> NoneOverdrawn(p, cs, now, extra)
  {
    BalanceExactly(p, cs, now, extra as real);
    forall j | 0 <= j < |cs| { FitsIsLeft(p, cs, j, now, extra); }
    hide Fits, Left, Level;
  }

  /**
   * A call is admitted if and only if no window that ends with it is overdrawn: with it an allow may not
   * exceed burst and accrual since any earlier charge, and without it a peek may not.
   */
  lemma AnsweredExactly(p: Params, calls: seq<Call>, i: nat)
    requires i < |calls|
    ensures var cs, now := Charges(p, calls[..i], calls[i].key), calls[i].at;
            && (calls[i].kind == Allow ==> (Answer(p, calls, i) <==> NoneOverdrawn(p, cs, now, 1)))
            && (calls[i].kind == PeekOK ==> (Answer(p, calls, i) <==> NoneOverdrawn(p, cs, now, 0)))
  {
    hide Level, Charges, NoneOverdrawn;
    var cs, now := Charges(p, calls[..i], calls[i].key), calls[i].at;
    LevelFits(p, cs, now, 1);
    LevelFits(p, cs, now, 0);
  }

  /** So after a long enough pause a key is admitted again, whatever its debts. */
  lemma AdmittedAgain(p: Params, calls: seq<Call>, i: nat)
    requires p.Valid() && Timely(calls) && i < |calls|
    requires var cs := Charges(p, calls[..i], calls[i].key);
             cs == [] || p.rate * (calls[i].at - cs[|cs| - 1]) >= |cs| as real
    ensures calls[i].kind == Allow ==> (Answer(p, calls, i) <==> p.burst >= 1.0)
    ensures calls[i].kind == PeekOK ==> Answer(p, calls, i)
  {
    var cs := Charges(p, calls[..i], calls[i].key);
    if cs != [] {
      ChargesOrdered(p, calls[..i], calls[i].key);
      RefillsInTime(p, cs, calls[i].at);
    }
  }

  predicate Timely(calls: seq<Call>) {
    forall i, j :: 0 <= i <= j < |calls| ==> calls[i].at <= calls[j].at
  }

  /** The calls that can matter to a key: its own, without the peeks. */
  function Relevant(calls: seq<Call>, key: Key): seq<Call> {
    if calls == [] then []
    else
      var m := |calls| - 1;
      var before := Relevant(calls[..m], key);
      if calls[m].key == key && calls[m].kind != PeekOK then before + [calls[m]] else before
  }

  /** Other keys' calls and all peeks are without effect on a key. */
  lemma {:induction false} OnlyRelevantCallsMatter(p: Params, calls: seq<Call>, key: Key)
    ensures Charges(p, calls, key) == Charges(p, Relevant(calls, key), key)
  {
    if calls != [] {
      var m := |calls| - 1;
      OnlyRelevantCallsMatter(p, calls[..m], key);
      var r := Relevant(calls[..m], key);
      assert (r + [calls[m]])[..|r|] == r;
    }
  }

  lemma {:induction false} ChargesOrdered(p: Params, calls: seq<Call>, key: Key)
    requires Timely(calls)
    ensures Ordered(Charges(p, calls, key))
    ensures calls != [] ==> forall i :: 0 <= i < |Charges(p, calls, key)| ==>
            Charges(p, calls, key)[i] <= calls[|calls| - 1].at
  {
    if calls != [] {
      var m := |calls| - 1;
      ChargesOrdered(p, calls[..m], key);
      if m > 0 { assert calls[m - 1].at <= calls[m].at; }
    }
  }

  ghost predicate OnlyAllowed(calls: seq<Call>, key: Key) {
    forall i :: 0 <= i < |calls| && calls[i].key == key ==> calls[i].kind != Take
  }

  /** The balance of a key that is only ever asked for admission stays between 0 and burst. */
  lemma {:induction false} AllowKeepsBalance(p: Params, calls: seq<Call>, key: Key, now: real)
    requires p.Valid() && Timely(calls) && OnlyAllowed(calls, key)
    requires calls != [] ==> calls[|calls| - 1].at <= now
    ensures 0.0 <= Level(p, Charges(p, calls, key), now) <= p.burst
  {
    hide Accrued;
    if calls != [] {
      var m := |calls| - 1;
      if m > 0 { assert calls[m - 1].at <= calls[m].at; }
      assert OnlyAllowed(calls[..m], key) && Timely(calls[..m]);
      AllowKeepsBalance(p, calls[..m], key, calls[m].at);
      var before, after := Charges(p, calls[..m], key), Charges(p, calls, key);
      if after == before {
        LevelGrows(p, before, calls[m].at, now);
      } else {
        assert after[..|before|] == before;
        AccruedLaws(p.rate, now - calls[m].at, 0.0);
      }
    }
    LevelAtMostBurst(p, Charges(p, calls, key), now);
  }

  /** Of the calls, those up to and including charge number `j`. */
  lemma {:induction false} CallOfCharge(p: Params, calls: seq<Call>, key: Key, j: nat) returns (n: nat)
    requires j < |Charges(p, calls, key)|
    ensures n < |calls| && calls[n].at == Charges(p, calls, key)[j]
    ensures Charges(p, calls[..n + 1], key) == Charges(p, calls, key)[..j + 1]
  {
    var m := |calls| - 1;
    var before, after := Charges(p, calls[..m], key), Charges(p, calls, key);
    if j < |before| {
      n := CallOfCharge(p, calls[..m], key, j);
      assert calls[..m][..n + 1] == calls[..n + 1];
      assert after[..j + 1] == before[..j + 1];
    } else {
      n := m;
      assert calls[..n + 1] == calls && after[..j + 1] == after;
    }
  }

  /** The times at which a key was admitted: its allows that were answered true. */
  function Admissions(p: Params, calls: seq<Call>, key: Key): seq<real> {
    if calls == [] then []
    else
      var m := |calls| - 1;
      var before := Admissions(p, calls[..m], key);
      if calls[m].key == key && calls[m].kind == Allow && Answer(p, calls, m) then before + [calls[m].at] else before
  }

  /** For a key used only through Allow they are its charges. */
  lemma {:induction false} AdmissionsAreCharges(p: Params, calls: seq<Call>, key: Key)
    requires OnlyAllowed(calls, key)
    ensures Admissions(p, calls, key) == Charges(p, calls, key)
  {
    if calls != [] {
      var m := |calls| - 1;
      assert OnlyAllowed(calls[..m], key);
      AdmissionsAreCharges(p, calls[..m], key);
      assert calls[..m + 1] == calls;
      ChargedExactly(p, calls, m, key);
      hide Answer, Charges;
    }
  }

  /**
   * For a key used only through Allow, the calls answered true in any window of length d number at most
   * burst + rate * d.
   */
  lemma AdmissionsInWindow(p: Params, calls: seq<Call>, key: Key, i: nat, j: nat, d: real)
    requires p.Valid() && Timely(calls) && OnlyAllowed(calls, key)
    requires i < j <= |Admissions(p, calls, key)|
    requires Admissions(p, calls, key)[j - 1] - Admissions(p, calls, key)[i] <= d
    ensures (j - i) as real <= p.burst + p.rate * d
  {
    AdmissionsAreCharges(p, calls, key);
    var cs := Charges(p, calls, key);
    var n := CallOfCharge(p, calls, key, j - 1);
    ChargesOrdered(p, calls, key);
    AllowKeepsBalance(p, calls[..n + 1], key, cs[j - 1]);
    WindowBound(p, cs, i, j, 0.0, d);
  }
}
