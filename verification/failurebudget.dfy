/** Concurrent requests against the failure budget: admitted while the balance is not negative, charged later. */
module FailureBudget {
  import opened TokenBucket

  /**
   * A request is admitted or refused; an admitted one later either fails, charging its address once, or
   * finishes without a charge.
   */
  datatype Step =
    | Admit(ip: Key, at: real)
    | Refuse(ip: Key, at: real)
    | Fail(ip: Key, at: real)
    | Finish(ip: Key, at: real)

  function FailTimes(es: seq<Step>, ip: Key): seq<real> {
    if es == [] then []
    else
      var e, before := es[|es| - 1], FailTimes(es[..|es| - 1], ip);
      if e.Fail? && e.ip == ip then before + [e.at] else before
  }

  /** The requests of an address that are admitted and not yet done. */
  function InFlight(es: seq<Step>, ip: Key): int {
    if es == [] then 0
    else
      var e, before := es[|es| - 1], InFlight(es[..|es| - 1], ip);
      if e.ip != ip || e.Refuse? then before else if e.Admit? then before + 1 else before - 1
  }

  /** Whether a step may follow: admission on a balance that is not negative, and at most c in flight. */
  predicate MayFollow(p: Params, es: seq<Step>, e: Step, c: nat) {
    var level, flying := Level(p, FailTimes(es, e.ip), e.at), InFlight(es, e.ip);
    match e
    case Admit(_, _) => level >= 0.0 && flying < c
    case Refuse(_, _) => level < 0.0
    case Fail(_, _) => flying > 0
    case Finish(_, _) => flying > 0
  }

  /** Any interleaving of such steps. */
  ghost predicate Legal(p: Params, es: seq<Step>, c: nat) {
    && (forall i, j :: 0 <= i <= j < |es| ==> es[i].at <= es[j].at)
    && forall i :: 0 <= i < |es| ==> MayFollow(p, es[..i], es[i], c)
  }

  lemma LegalOn(p: Params, es: seq<Step>, e: Step, c: nat)
    requires Legal(p, es, c) && MayFollow(p, es, e, c) && (es != [] ==> es[|es| - 1].at <= e.at)
    ensures Legal(p, es + [e], c)
  {
    hide MayFollow;
    var es' := es + [e];
    assert es'[..|es|] == es;
    forall i | 0 <= i < |es'|
      ensures MayFollow(p, es'[..i], es'[i], c)
    {
      if i < |es| { assert es'[..i] == es[..i]; }
    }
  }

  lemma LegalPrefix(p: Params, es: seq<Step>, c: nat, n: nat)
    requires Legal(p, es, c) && n <= |es|
    ensures Legal(p, es[..n], c)
  {
    forall i | 0 <= i < n
      ensures es[..n][..i] == es[..i]
    {}
  }

  lemma {:induction false} FailTimesOrdered(es: seq<Step>, ip: Key)
    requires forall i, j :: 0 <= i <= j < |es| ==> es[i].at <= es[j].at
    ensures Ordered(FailTimes(es, ip))
    ensures es != [] ==> forall i :: 0 <= i < |FailTimes(es, ip)| ==> FailTimes(es, ip)[i] <= es[|es| - 1].at
  {
    if es != [] {
      var m := |es| - 1;
      FailTimesOrdered(es[..m], ip);
      if m > 0 { assert es[m - 1].at <= es[m].at; }
    }
  }

  /** The balance is at least the number of requests in flight less c. */
  ghost predicate Covered(p: Params, es: seq<Step>, c: nat, ip: Key, now: real) {
    && 0 <= InFlight(es, ip) <= c
    && Level(p, FailTimes(es, ip), now) >= (InFlight(es, ip) - c) as real
  }

  lemma ChargeCovered(p: Params, es: seq<Step>, e: Step, c: nat, ip: Key, now: real)
    requires p.Valid() && MayFollow(p, es, e, c) && e.at <= now && Covered(p, es, c, ip, e.at)
    requires e.Fail? && e.ip == ip
    ensures Covered(p, es + [e], c, ip, now)
  {
    hide Accrued;
    var before := FailTimes(es, ip);
    assert (es + [e])[..|es|] == es;
    assert (before + [e.at])[..|before|] == before;
    AccruedLaws(p.rate, now - e.at, 0.0);
  }

  lemma FreeCovered(p: Params, es: seq<Step>, e: Step, c: nat, ip: Key, now: real)
    requires p.Valid() && MayFollow(p, es, e, c) && e.at <= now && Covered(p, es, c, ip, e.at)
    requires !e.Fail? || e.ip != ip
    ensures Covered(p, es + [e], c, ip, now)
  {
    hide Level;
    assert (es + [e])[..|es|] == es;
    LevelGrows(p, FailTimes(es, ip), e.at, now);
  }

  lemma NothingCovered(p: Params, c: nat, ip: Key, now: real)
    requires p.Valid()
    ensures Covered(p, [], c, ip, now)
  {}

  lemma LegalLast(p: Params, es: seq<Step>, c: nat)
    requires Legal(p, es, c) && es != []
    ensures var m := |es| - 1;
            && Legal(p, es[..m], c) && MayFollow(p, es[..m], es[m], c)
            && (m > 0 ==> es[..m][m - 1].at <= es[m].at)
  {
    hide MayFollow;
    LegalPrefix(p, es, c, |es| - 1);
  }

  /** In every legal interleaving the balance covers the requests in flight. */
  lemma {:induction false} BalanceCoversFlight(p: Params, es: seq<Step>, c: nat, ip: Key, now: real)
    requires p.Valid() && Legal(p, es, c) && (es != [] ==> es[|es| - 1].at <= now)
    ensures Covered(p, es, c, ip, now)
  {
    hide Legal, MayFollow, Covered;
    if es == [] {
      NothingCovered(p, c, ip, now);
    } else {
      var m := |es| - 1;
      LegalLast(p, es, c);
      BalanceCoversFlight(p, es[..m], c, ip, es[m].at);
      assert es == es[..m] + [es[m]];
      if es[m].Fail? && es[m].ip == ip {
        ChargeCovered(p, es[..m], es[m], c, ip, now);
      } else {
        FreeCovered(p, es[..m], es[m], c, ip, now);
      }
    }
  }

  /** With at most c admitted requests of an address in flight, its failure balance never falls below -c. */
  lemma BalanceFloor(p: Params, es: seq<Step>, c: nat, ip: Key, now: real)
    requires p.Valid() && Legal(p, es, c) && (es != [] ==> es[|es| - 1].at <= now)
    ensures Level(p, FailTimes(es, ip), now) >= -(c as real)
  {
    BalanceCoversFlight(p, es, c, ip, now);
  }

  lemma {:induction false} StepOfFailure(es: seq<Step>, ip: Key, j: nat) returns (n: nat)
    requires j < |FailTimes(es, ip)|
    ensures n < |es| && es[n].at == FailTimes(es, ip)[j]
    ensures FailTimes(es[..n + 1], ip) == FailTimes(es, ip)[..j + 1]
  {
    var m := |es| - 1;
    var before, after := FailTimes(es[..m], ip), FailTimes(es, ip);
    if j < |before| {
      n := StepOfFailure(es[..m], ip, j);
      assert es[..m][..n + 1] == es[..n + 1];
      assert after[..j + 1] == before[..j + 1];
    } else {
      n := m;
      assert es[..n + 1] == es && after[..j + 1] == after;
    }
  }

  /** The charged failures of an address in any window of length d number at most burst + c + rate * d. */
  lemma FailuresInWindow(p: Params, es: seq<Step>, c: nat, ip: Key, i: nat, j: nat, d: real)
    requires p.Valid() && Legal(p, es, c)
    requires i < j <= |FailTimes(es, ip)| && FailTimes(es, ip)[j - 1] - FailTimes(es, ip)[i] <= d
    ensures (j - i) as real <= p.burst + c as real + p.rate * d
  {
    var cs := FailTimes(es, ip);
    FailTimesOrdered(es, ip);
    hide Legal, FailTimes, Level, InFlight;
    var n := StepOfFailure(es, ip, j - 1);
    LegalPrefix(p, es, c, n + 1);
    BalanceFloor(p, es[..n + 1], c, ip, cs[j - 1]);
    WindowBound(p, cs, i, j, c as real, d);
  }

  // ----- the budget is the failure limiter's bucket -----

  /** The calls these steps make on the failure limiter: a peek to admit, a take to charge. */
  function CallsOf(es: seq<Step>): seq<Call> {
    if es == [] then []
    else
      var e, before := es[|es| - 1], CallsOf(es[..|es| - 1]);
      match e
      case Admit(ip, at) => before + [Call(PeekOK, ip, at)]
      case Fail(ip, at) => before + [Call(Take, ip, at)]
      case Refuse(ip, at) => before + [Call(PeekOK, ip, at)]
      case Finish(_, _) => before
  }

  /** The limiter charges an address exactly at its failures. */
  lemma {:induction false} BudgetIsTheLimiters(p: Params, es: seq<Step>, ip: Key)
    ensures Charges(p, CallsOf(es), ip) == FailTimes(es, ip)
  {
    if es != [] {
      var before := CallsOf(es[..|es| - 1]);
      BudgetIsTheLimiters(p, es[..|es| - 1], ip);
      forall c: Call
        ensures (before + [c])[..|before|] == before
      {}
    }
  }

  lemma PeekAnswer(p: Params, es: seq<Step>, ip: Key, at: real)
    ensures var calls := CallsOf(es) + [Call(PeekOK, ip, at)];
            Answer(p, calls, |calls| - 1) <==> Level(p, FailTimes(es, ip), at) >= 0.0
  {
    hide Level;
    var before := CallsOf(es);
    assert (before + [Call(PeekOK, ip, at)])[..|before|] == before;
    BudgetIsTheLimiters(p, es, ip);
  }

  /** Admission on a balance that is not negative is what the limiter's peek answers. */
  lemma AdmissionIsPeek(p: Params, es: seq<Step>, i: nat)
    requires i < |es| && (es[i].Admit? || es[i].Refuse?)
    ensures var calls := CallsOf(es[..i + 1]);
            && calls != []
            && (Answer(p, calls, |calls| - 1) <==> Level(p, FailTimes(es[..i], es[i].ip), es[i].at) >= 0.0)
  {
    hide Level;
    assert es[..i + 1][..i] == es[..i];
    PeekAnswer(p, es[..i], es[i].ip, es[i].at);
  }

  /** So the limiter's own charges of an address obey the bounds. */
  lemma LimiterWithinBudget(p: Params, es: seq<Step>, c: nat, ip: Key, now: real, i: nat, j: nat, d: real)
    requires p.Valid() && Legal(p, es, c) && (es != [] ==> es[|es| - 1].at <= now)
    ensures Level(p, Charges(p, CallsOf(es), ip), now) >= -(c as real)
    ensures var cs := Charges(p, CallsOf(es), ip);
            i < j <= |cs| && cs[j - 1] - cs[i] <= d ==> (j - i) as real <= p.burst + c as real + p.rate * d
  {
    hide Legal, Level, Charges, CallsOf, FailTimes;
    BudgetIsTheLimiters(p, es, ip);
    BalanceFloor(p, es, c, ip, now);
    var cs := FailTimes(es, ip);
    if i < j <= |cs| && cs[j - 1] - cs[i] <= d { FailuresInWindow(p, es, c, ip, i, j, d); }
  }
}
