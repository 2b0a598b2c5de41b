/** Laws of the secret store, over every run. */
module StoreLaws {
  import opened StoreSpec
  import opened Wrappers

  // ----- runs grow -----

  lemma RunExtends(lim: Limits, es: seq<Event>, ss: seq<State>, e: Event, s': State)
    requires Run(lim, es, ss) && Step(lim, ss[|ss| - 1], e, s') && e.now <= e.End()
    requires es != [] ==> es[|es| - 1].End() <= e.now
    ensures Run(lim, es + [e], ss + [s'])
  {
    hide Step;
    var es', ss' := es + [e], ss + [s'];
    forall i, j | 0 <= i < j < |es'|
      ensures es'[i].End() <= es'[j].now
    {
      if j == |es| && i < j - 1 {
        assert es[i].End() <= es[j - 1].now <= es[j - 1].End();
      }
    }
    forall i | 0 <= i < |es'|
      ensures Step(lim, ss'[i], es'[i], ss'[i + 1])
    {
      if i < |es| { assert Step(lim, ss[i], es[i], ss[i + 1]); }
    }
  }

  // ----- what a purge leaves -----

  /** After a purge every tombstone left stands and every entry left lives; and no other one has gone. */
  lemma PurgeClears(lim: Limits, s: State, e: Event, s': State)
    requires e.Purge? && Step(lim, s, e, s') && e.now <= e.later
    ensures forall id :: id in s'.tombs ==> e.now < s'.tombs[id].until
    ensures forall id :: id in s'.tombs <==> (id in s.tombs && e.now < s.tombs[id].until) || id in e.buried
    ensures forall id :: id in s'.tombs && id !in e.buried ==> s'.tombs[id] == s.tombs[id]
    ensures forall id :: id in s'.entries <==> id in s.entries && e.now < s.entries[id].expiresAt
    ensures forall id :: id in s'.entries ==> s'.entries[id] == s.entries[id]
  {
    hide CapHonoured;
    assert forall id :: id in e.buried ==> id in Overdue(s, e.now);
  }

  // ----- the state agrees with the history -----

  /** How the entries at clock time `clock` relate to what the history says about one ID. */
  ghost predicate HeldAgrees(es: seq<Event>, s: State, id: Id, clock: Instant) {
    var account := Account(es, id);
    && (id in s.entries ==>
         && account.Some? && account.value.revoked == None && account.value.taken < account.value.secret.total
         && s.entries[id] == account.value.secret.(remaining := account.value.secret.total - account.value.taken))
    && (account.Some? ==>
         && account.value.taken <= account.value.secret.total
         && (account.value.Available(clock) ==> id in s.entries))
  }

  /** How the tombstones do. */
  ghost predicate BuriedAgrees(es: seq<Event>, s: State, id: Id, clock: Instant) {
    id in s.tombs ==>
      && id !in s.entries
      && Account(es, id).Some? && !Account(es, id).value.Available(clock)
      && (s.tombs[id].reason, s.tombs[id].at) == Account(es, id).value.Fate()
  }

  ghost predicate Agrees(es: seq<Event>, s: State, id: Id, clock: Instant) {
    HeldAgrees(es, s, id, clock) && BuriedAgrees(es, s, id, clock)
  }

  lemma {:induction false} NeverPut(es: seq<Event>, id: Id)
    requires forall i :: 0 <= i < |es| && es[i].Put? ==> es[i].id != id
    ensures Account(es, id) == None
  {
    if es != [] { NeverPut(es[..|es| - 1], id); }
  }

  /** Two states show the same of one ID. */
  ghost predicate SameFor(s: State, t: State, id: Id) {
    && (id in t.entries <==> id in s.entries) && (id in s.entries ==> t.entries[id] == s.entries[id])
    && (id in t.tombs <==> id in s.tombs) && (id in s.tombs ==> t.tombs[id] == s.tombs[id])
  }

  lemma SettleElsewhere(lim: Limits, s: State, at: Id, now: Instant, later: Instant, id: Id)
    requires id != at
    ensures SameFor(s, Settle(lim, s, at, now, later), id)
  {
    hide AtCap;
  }

  lemma SettleKeepsAgreement(lim: Limits, es: seq<Event>, s: State, at: Id, now: Instant, later: Instant,
                             id: Id, clock: Instant)
    requires HeldAgrees(es, s, id, clock) && clock <= now <= later
    ensures HeldAgrees(es, Settle(lim, s, at, now, later), id, later)
    ensures BuriedAgrees(es, s, id, clock) ==> BuriedAgrees(es, Settle(lim, s, at, now, later), id, later)
  {
    hide Account, AtCap;
    if id != at {
      SettleElsewhere(lim, s, at, now, later, id);
      hide Settle;
    }
  }

  /** After the settling, a lookup changes nothing but the entry it takes from or revokes. */
  lemma LookElsewhere(lim: Limits, s: State, e: Event, s': State, id: Id)
    requires e.Look? && LookStep(lim, s, e, s') && (id != e.id || !e.answer.Found? || e.op == Peek)
    ensures SameFor(Settle(lim, s, e.id, e.now, e.later), s', id)
  {
    hide Settle, AtCap;
  }

  lemma LookFinds(lim: Limits, s: State, e: Event, s': State)
    requires e.Look? && LookStep(lim, s, e, s') && e.answer.Found?
    ensures var t := Settle(lim, s, e.id, e.now, e.later);
            && e.id in t.entries
            && (e.op == Take ==> s' == Spend(lim, t, e.id, e.later))
            && (e.op == Revoke ==> s' == Remove(lim, t, e.id, Revoked, e.later))
  {
    hide Settle, Spend, Remove;
  }

  lemma SameAccount(es: seq<Event>, e: Event, id: Id)
    requires e.Look? && (id != e.id || !e.answer.Found? || e.op == Peek)
    ensures Account(es + [e], id) == Account(es, id)
  {
    assert (es + [e])[..|es|] == es;
  }

  /** A found entry is read or revoked after the settling; other IDs are left alone. */
  lemma LookKeepsAgreement(lim: Limits, es: seq<Event>, e: Event, s: State, s': State, id: Id, clock: Instant)
    requires HeldAgrees(es, s, id, clock) && e.Look? && LookStep(lim, s, e, s') && clock <= e.now <= e.later
    ensures HeldAgrees(es + [e], s', id, e.later)
    ensures BuriedAgrees(es, s, id, clock) ==> BuriedAgrees(es + [e], s', id, e.later)
  {
    SettleKeepsAgreement(lim, es, s, e.id, e.now, e.later, id, clock);
    if id == e.id && e.answer.Found? && e.op != Peek {
      LookFinds(lim, s, e, s');
      hide *;
      FoundKeepsAgreement(lim, es, e, Settle(lim, s, e.id, e.now, e.later), s');
    } else {
      LookElsewhere(lim, s, e, s', id);
      SameAccount(es, e, id);
      hide Account, LookStep, Settle;
    }
  }

  lemma FoundKeepsAgreement(lim: Limits, es: seq<Event>, e: Event, t: State, s': State)
    requires e.Look? && e.id in t.entries && e.op != Peek && e.answer.Found? && HeldAgrees(es, t, e.id, e.later)
    requires e.op == Take ==> s' == Spend(lim, t, e.id, e.later)
    requires e.op == Revoke ==> s' == Remove(lim, t, e.id, Revoked, e.later)
    ensures HeldAgrees(es + [e], s', e.id, e.later)
    ensures BuriedAgrees(es, t, e.id, e.later) ==> BuriedAgrees(es + [e], s', e.id, e.later)
  {
    hide AtCap;
    assert (es + [e])[..|es|] == es;
  }

  lemma PurgeKeepsAgreement(lim: Limits, es: seq<Event>, e: Event, s: State, s': State, id: Id, clock: Instant)
    requires HeldAgrees(es, s, id, clock) && e.Purge? && PurgeStep(lim, s, e, s') && clock <= e.now <= e.later
    ensures HeldAgrees(es + [e], s', id, e.later)
    ensures BuriedAgrees(es, s, id, clock) ==> BuriedAgrees(es + [e], s', id, e.later)
  {
    hide CapHonoured;
    assert (es + [e])[..|es|] == es;
  }

  lemma PutKeepsAgreement(lim: Limits, es: seq<Event>, e: Event, s: State, s': State, id: Id, clock: Instant)
    requires HeldAgrees(es, s, id, clock) && e.Put? && PutStep(lim, s, e, s') && clock <= e.now
    requires e.id == id ==> e.secret.total >= 1
    ensures HeldAgrees(es + [e], s', id, e.now)
    ensures BuriedAgrees(es, s, id, clock) && (e.id == id ==> Account(es, id) == None) ==>
              BuriedAgrees(es + [e], s', id, e.now)
  {
    assert (es + [e])[..|es|] == es;
  }

  lemma IdleKeepsAgreement(es: seq<Event>, e: Event, s: State, id: Id, clock: Instant)
    requires HeldAgrees(es, s, id, clock) && e.Refused? && clock <= e.now
    ensures HeldAgrees(es + [e], s, id, e.now)
    ensures BuriedAgrees(es, s, id, clock) ==> BuriedAgrees(es + [e], s, id, e.now)
  {
    assert (es + [e])[..|es|] == es;
  }

  /** Every step keeps state and history in agreement, tombstones as long as the ID is stored but once. */
  lemma StepKeepsAgreement(lim: Limits, es: seq<Event>, e: Event, s: State, s': State, id: Id, clock: Instant)
    requires HeldAgrees(es, s, id, clock) && Step(lim, s, e, s') && clock <= e.now <= e.End()
    requires e.Put? && e.id == id ==> e.secret.total >= 1
    ensures HeldAgrees(es + [e], s', id, e.End())
    ensures BuriedAgrees(es, s, id, clock) && (e.Put? && e.id == id ==> Account(es, id) == None) ==>
              BuriedAgrees(es + [e], s', id, e.End())
  {
    hide HeldAgrees, BuriedAgrees, PutStep, LookStep, PurgeStep, Account;
    match e
    case Put(_, _, _) => PutKeepsAgreement(lim, es, e, s, s', id, clock);
    case Refused(_) => IdleKeepsAgreement(es, e, s, id, clock);
    case Look(_, _, _, _, _) => LookKeepsAgreement(lim, es, e, s, s', id, clock);
    case Purge(_, _, _) => PurgeKeepsAgreement(lim, es, e, s, s', id, clock);
  }

  /** A clock reading that no step before position `n` exceeds and every later step reaches. */
  function ClockAt(es: seq<Event>, n: nat): Instant
    requires n <= |es|
  {
    if n > 0 then es[n - 1].End() else if es == [] then 0 else es[0].now
  }

  /** Before its one `Put`, an ID has no account. */
  lemma PutsAreFirst(es: seq<Event>, p: nat, id: Id)
    requires FreshId(es, id) && p < |es| && es[p].Put? && es[p].id == id
    ensures Account(es[..p], id) == None
  {
    NeverPut(es[..p], id);
  }

  lemma RunStart(lim: Limits, es: seq<Event>, ss: seq<State>, id: Id)
    requires Run(lim, es, ss)
    ensures |ss| == |es| + 1 && Agrees(es[..0], ss[0], id, ClockAt(es, 0))
    ensures HeldAgrees(es[..0], ss[0], id, ClockAt(es, 0))
  {
    hide Step;
  }

  lemma ReadableAt(es: seq<Event>, n: nat, id: Id)
    requires Readable(es, id) && n < |es|
    ensures es[n].Put? && es[n].id == id ==> es[n].secret.total >= 1
  {}

  /** One step of a run, and its place in time. */
  lemma RunStep(lim: Limits, es: seq<Event>, ss: seq<State>, n: nat)
    requires Run(lim, es, ss) && n < |es|
    ensures |ss| == |es| + 1 && Step(lim, ss[n], es[n], ss[n + 1])
    ensures ClockAt(es, n) <= es[n].now <= es[n].End() == ClockAt(es, n + 1)
  {
    hide Step;
  }

  lemma HoldsOn(lim: Limits, es: seq<Event>, ss: seq<State>, n: nat, id: Id)
    requires n < |es| && |ss| == |es| + 1 && HeldAgrees(es[..n], ss[n], id, ClockAt(es, n))
    requires Step(lim, ss[n], es[n], ss[n + 1]) && ClockAt(es, n) <= es[n].now <= es[n].End() == ClockAt(es, n + 1)
    requires es[n].Put? && es[n].id == id ==> es[n].secret.total >= 1
    ensures HeldAgrees(es[..n + 1], ss[n + 1], id, ClockAt(es, n + 1))
    ensures BuriedAgrees(es[..n], ss[n], id, ClockAt(es, n))
            && (es[n].Put? && es[n].id == id ==> Account(es[..n], id) == None) ==>
              BuriedAgrees(es[..n + 1], ss[n + 1], id, ClockAt(es, n + 1))
  {
    hide *;
    assert es[..n + 1] == es[..n] + [es[n]];
    StepKeepsAgreement(lim, es[..n], es[n], ss[n], ss[n + 1], id, ClockAt(es, n));
  }

  /** In every run, at every point, the entries agree with the history, however often IDs are stored anew. */
  lemma {:induction false} RunHolds(lim: Limits, es: seq<Event>, ss: seq<State>, n: nat, id: Id)
    requires Run(lim, es, ss) && Readable(es, id) && n <= |es|
    ensures HeldAgrees(es[..n], ss[n], id, ClockAt(es, n))
  {
    RunStart(lim, es, ss, id);
    hide Agrees, HeldAgrees, BuriedAgrees, Account, Run, Step, Readable, ClockAt;
    if n > 0 {
      RunHolds(lim, es, ss, n - 1, id);
      RunStep(lim, es, ss, n - 1);
      ReadableAt(es, n - 1, id);
      HoldsOn(lim, es, ss, n - 1, id);
    }
  }

  lemma {:induction false} RunBuries(lim: Limits, es: seq<Event>, ss: seq<State>, n: nat, id: Id)
    requires Run(lim, es, ss) && FreshId(es, id) && n <= |es|
    ensures BuriedAgrees(es[..n], ss[n], id, ClockAt(es, n))
  {
    RunStart(lim, es, ss, id);
    if n > 0 {
      if es[n - 1].Put? && es[n - 1].id == id { PutsAreFirst(es, n - 1, id); }
      hide BuriedAgrees, HeldAgrees, Account, Run, Step, ClockAt;
      RunBuries(lim, es, ss, n - 1, id);
      RunHolds(lim, es, ss, n - 1, id);
      RunStep(lim, es, ss, n - 1);
      ReadableAt(es, n - 1, id);
      HoldsOn(lim, es, ss, n - 1, id);
    }
  }

  /** And so do the tombstones of an ID that is stored but once. */
  lemma RunAgrees(lim: Limits, es: seq<Event>, ss: seq<State>, n: nat, id: Id)
    requires Run(lim, es, ss) && FreshId(es, id) && n <= |es|
    ensures Agrees(es[..n], ss[n], id, ClockAt(es, n))
  {
    RunBuries(lim, es, ss, n, id);
    RunHolds(lim, es, ss, n, id);
    hide BuriedAgrees, HeldAgrees, Run, ClockAt;
  }

  // ----- the store refines the history specification -----

  /**
   * In every run, whatever else is interleaved and however often the ID is stored anew, a lookup finds a
   * secret exactly when the history says that the secret last stored was not revoked, was read fewer times
   * than allowed, and the clock is before its expiry. A peek shows the reads left, a take one less, and
   * everything else as stored.
   */
  lemma LookupsRefineHistory(lim: Limits, es: seq<Event>, ss: seq<State>, i: nat)
    requires Run(lim, es, ss) && i < |es| && es[i].Look? && Readable(es, es[i].id)
    ensures es[i].answer.Found? <==> AvailableIn(es[..i], es[i].id, es[i].now)
    ensures es[i].answer.Found? ==>
              var l := Account(es[..i], es[i].id).value;
              es[i].answer.secret
              == l.secret.(remaining := l.secret.total - l.taken - if es[i].op == Take then 1 else 0)
  {
    hide AtCap;
    RunHolds(lim, es, ss, i, es[i].id);
    assert ClockAt(es, i) <= es[i].now;
    assert Step(lim, ss[i], es[i], ss[i + 1]);
  }

  /**
   * Evidence is truthful: a reported consumption means the reads were exactly used up, and gives the
   * time of the last one; a revocation gives its own time; an expiry gives the original deadline,
   * however late it was noticed.
   */
  lemma EvidenceIsTruthful(lim: Limits, es: seq<Event>, ss: seq<State>, i: nat)
    requires Run(lim, es, ss) && i < |es| && es[i].Look? && es[i].answer.Gone? && FreshId(es, es[i].id)
    ensures Account(es[..i], es[i].id).Some?
    ensures var l, gone := Account(es[..i], es[i].id).value, es[i].answer;
            && (gone.reason == Consumed ==> l.revoked == None && l.taken == l.secret.total && gone.at == l.lastTake)
            && (gone.reason == Revoked ==> l.revoked == Some(gone.at))
            && (gone.reason == Expired ==>
                 l.revoked == None && l.taken < l.secret.total && gone.at == l.secret.expiresAt <= es[i].now)
  {
    hide AtCap;
    RunAgrees(lim, es, ss, i, es[i].id);
    assert ClockAt(es, i) <= es[i].now;
    assert Step(lim, ss[i], es[i], ss[i + 1]);
  }

  // ----- reads handed out -----

  /** The remaining-read counts that successful takes of an ID returned, in order. */
  function HandedOut(es: seq<Event>, id: Id): seq<int> {
    if es == [] then []
    else
      var e, before := es[|es| - 1], HandedOut(es[..|es| - 1], id);
      if e.Look? && e.op == Take && e.id == id && e.answer.Found? then before + [e.answer.secret.remaining] else before
  }

  /** How many takes of an ID were tried since it was stored, before its expiry. */
  function Attempts(es: seq<Event>, id: Id): nat {
    if es == [] then 0
    else
      var e, before := es[|es| - 1], es[..|es| - 1];
      if e.Put? && e.id == id then 0
      else if e.Look? && e.op == Take && e.id == id && Account(before, id).Some?
              && e.now < Account(before, id).value.secret.expiresAt then Attempts(before, id) + 1
      else Attempts(before, id)
  }

  function CountDown(total: int, taken: nat): (counts: seq<int>)
    ensures |counts| == taken && forall c :: 0 <= c < taken ==> counts[c] == total - 1 - c
  {
    seq(taken, c => total - 1 - c)
  }

  ghost predicate CountedDown(es: seq<Event>, id: Id) {
    match Account(es, id)
    case None => HandedOut(es, id) == []
    case Some(l) =>
      && HandedOut(es, id) == CountDown(l.secret.total, l.taken)
      && (l.revoked == None ==>
           l.taken == if Attempts(es, id) < l.secret.total then Attempts(es, id) else l.secret.total)
  }

  /** Every successful take of the ID adds the count it returned, and nothing else does. */
  lemma HandedOutOn(es: seq<Event>, e: Event, id: Id)
    ensures HandedOut(es + [e], id)
            == HandedOut(es, id) + if e.Look? && e.op == Take && e.id == id && e.answer.Found?
                                   then [e.answer.secret.remaining] else []
  {
    assert (es + [e])[..|es|] == es;
  }

  /** The step of the count: the event answers as the history specification demands. */
  lemma CountStep(es: seq<Event>, e: Event, id: Id)
    requires CountedDown(es, id)
    requires e.Put? && e.id == id ==> Account(es, id) == None && e.secret.total >= 1
    requires e.Look? && e.id == id ==> (e.answer.Found? <==> AvailableIn(es, id, e.now))
    requires e.Look? && e.id == id && e.answer.Found? && e.op == Take ==>
               e.answer.secret.remaining == Account(es, id).value.secret.total - Account(es, id).value.taken - 1
    ensures CountedDown(es + [e], id)
  {
    assert (es + [e])[..|es|] == es && (es + [e])[|es|] == e;
  }

  /**
   * Whatever the interleaving, the counts handed out for an ID are reads-1, reads-2, ... with none
   * skipped or repeated; and without a revocation, tries before the expiry succeed exactly until the
   * reads are used up.
   */
  lemma {:induction false} ReadsAreCountedDown(lim: Limits, es: seq<Event>, ss: seq<State>, n: nat, id: Id)
    requires Run(lim, es, ss) && FreshId(es, id) && n <= |es|
    ensures CountedDown(es[..n], id)
  {
    if n > 0 {
      var e := es[n - 1];
      ReadsAreCountedDown(lim, es, ss, n - 1, id);
      assert es[..n] == es[..n - 1] + [e];
      if e.Put? && e.id == id { PutsAreFirst(es, n - 1, id); }
      if e.Look? && e.id == id { LookupsRefineHistory(lim, es, ss, n - 1); }
      hide Run, CountedDown;
      CountStep(es[..n - 1], e, id);
    }
  }

  // ----- the life cycle of one ID -----

  /** No secret is stored under the ID from position `i` on, up to `j`. */
  ghost predicate NoPut(es: seq<Event>, i: nat, j: nat, id: Id)
    requires j <= |es|
  {
    forall m :: i <= m < j && es[m].Put? ==> es[m].id != id
  }

  /** From a point where an ID is not available, its account never changes until it is stored anew. */
  lemma {:induction false} AccountFrozen(lim: Limits, es: seq<Event>, ss: seq<State>, i: nat, j: nat, id: Id,
                                        now: Instant)
    requires Run(lim, es, ss) && Readable(es, id) && i <= j <= |es| && NoPut(es, i, j, id)
    requires !AvailableIn(es[..i], id, now)
    requires forall m :: i <= m < |es| ==> now <= es[m].now
    ensures Account(es[..j], id) == Account(es[..i], id)
  {
    if i < j {
      AccountFrozen(lim, es, ss, i, j - 1, id, now);
      var e := es[j - 1];
      assert es[..j][..j - 1] == es[..j - 1] && es[..j][j - 1] == e;
      if e.Look? && e.id == id { LookupsRefineHistory(lim, es, ss, j - 1); }
    }
  }

  /** The ID is not held, and any tombstone it has is the one it had. */
  ghost predicate OnlyFades(s: State, s': State, id: Id) {
    id !in s'.entries && (id in s'.tombs ==> id in s.tombs && s'.tombs[id] == s.tombs[id])
  }

  lemma RemoveFades(lim: Limits, s: State, at: Id, now: Instant, id: Id)
    requires id !in s.entries && at in s.entries
    ensures forall r :: OnlyFades(s, Remove(lim, s, at, r, now), id)
  {
    hide AtCap;
  }

  lemma SettleFades(lim: Limits, s: State, at: Id, now: Instant, later: Instant, id: Id)
    requires id !in s.entries
    ensures OnlyFades(s, Settle(lim, s, at, now, later), id)
  {
    hide Remove;
    if at in s.entries { RemoveFades(lim, s, at, later, id); }
  }

  /** A step that stores nothing under an ID that is not held. */
  lemma StepFades(lim: Limits, s: State, e: Event, s': State, id: Id)
    requires Step(lim, s, e, s') && id !in s.entries && !(e.Put? && e.id == id)
    ensures OnlyFades(s, s', id)
  {
    hide CapHonoured, FairTomb;
    match e
    case Put(_, _, _) =>
    case Refused(_) =>
    case Look(_, _, _, _, _) =>
      SettleFades(lim, s, e.id, e.now, e.later, id);
      hide Settle, Bury;
      var t := Settle(lim, s, e.id, e.now, e.later);
      if e.id in t.entries { RemoveFades(lim, t, e.id, e.later, id); }
    case Purge(_, _, _) =>
  }

  /** An ID that is not held stays so until it is stored anew, and its tombstone never changes. */
  lemma {:induction false} AbsentStays(lim: Limits, es: seq<Event>, ss: seq<State>, i: nat, j: nat, id: Id)
    requires Run(lim, es, ss) && i <= j <= |es| && NoPut(es, i, j, id) && id !in ss[i].entries
    ensures OnlyFades(ss[i], ss[j], id)
  {
    hide Step;
    if i < j {
      AbsentStays(lim, es, ss, i, j - 1, id);
      StepFades(lim, ss[j - 1], es[j - 1], ss[j], id);
    }
  }

  /** Before an ID is stored, every lookup answers unknown. */
  lemma UnknownAtFirst(lim: Limits, es: seq<Event>, ss: seq<State>, i: nat)
    requires Run(lim, es, ss) && i < |es| && es[i].Look? && NoPut(es, 0, i, es[i].id)
    ensures es[i].answer == Unknown
  {
    AbsentStays(lim, es, ss, 0, i, es[i].id);
    assert Step(lim, ss[i], es[i], ss[i + 1]);
  }

  /** A lookup that finds nothing leaves the ID not held, with the tombstone it reported or with none. */
  lemma MissLeaves(lim: Limits, s: State, e: Event, s': State)
    requires e.Look? && LookStep(lim, s, e, s') && !e.answer.Found?
    ensures e.id !in s'.entries && e.answer == Lookup(s', e.id)
  {
    hide Settle;
  }

  /** What a lookup may answer in a state that does not hold the ID. */
  lemma AnswerWhenAbsent(lim: Limits, s: State, e: Event, s': State)
    requires e.Look? && LookStep(lim, s, e, s') && e.id !in s.entries
    ensures e.answer == Unknown || e.answer == Lookup(s, e.id)
  {
    hide AtCap;
  }

  /**
   * As long as an ID is not stored anew, the answers run through found, then gone, then unknown, and
   * never back; all gone answers report the same reason and the same time.
   */
  lemma LifeCycle(lim: Limits, es: seq<Event>, ss: seq<State>, i: nat, j: nat)
    requires Run(lim, es, ss) && i < j < |es| && es[i].Look? && es[j].Look? && es[i].id == es[j].id
    requires NoPut(es, i, j, es[i].id)
    ensures es[i].answer.Gone? ==> es[j].answer == es[i].answer || es[j].answer == Unknown
    ensures es[i].answer == Unknown ==> es[j].answer == Unknown
  {
    var id := es[i].id;
    if !es[i].answer.Found? {
      assert Step(lim, ss[i], es[i], ss[i + 1]) && Step(lim, ss[j], es[j], ss[j + 1]);
      hide LookStep;
      MissLeaves(lim, ss[i], es[i], ss[i + 1]);
      AbsentStays(lim, es, ss, i + 1, j, id);
      AnswerWhenAbsent(lim, ss[j], es[j], ss[j + 1]);
    }
  }

  lemma GoneIsFate(lim: Limits, es: seq<Event>, ss: seq<State>, i: nat)
    requires Run(lim, es, ss) && i < |es| && es[i].Look? && es[i].answer.Gone? && FreshId(es, es[i].id)
    ensures Account(es[..i], es[i].id).Some?
    ensures (es[i].answer.reason, es[i].answer.at) == Account(es[..i], es[i].id).value.Fate()
  {
    hide AtCap;
    RunAgrees(lim, es, ss, i, es[i].id);
    assert Step(lim, ss[i], es[i], ss[i + 1]);
  }

  // ----- storing an ID anew -----

  /** Nothing between `p` and `i` reads, revokes or stores the ID. */
  ghost predicate Untouched(es: seq<Event>, p: nat, i: nat, id: Id)
    requires i <= |es|
  {
    forall m :: p < m < i ==> !(es[m].Put? && es[m].id == id) && !(es[m].Look? && es[m].op != Peek && es[m].id == id)
  }

  lemma {:induction false} AccountAfterPut(es: seq<Event>, p: nat, i: nat)
    requires p < i <= |es| && es[p].Put? && Untouched(es, p, i, es[p].id)
    ensures Account(es[..i], es[p].id) == Some(Ledger(es[p].secret, 0, es[p].now, None))
  {
    assert es[..i][..i - 1] == es[..i - 1] && es[..i][i - 1] == es[i - 1];
    if p < i - 1 { AccountAfterPut(es, p, i - 1); }
  }

  /**
   * Whatever became of an ID before, storing a secret under it makes it live: the next lookup finds that
   * secret exactly when its deadline has not passed, even where the last one answered gone.
   */
  lemma ReuseRevives(lim: Limits, es: seq<Event>, ss: seq<State>, p: nat, i: nat)
    requires Run(lim, es, ss) && p < i < |es| && es[p].Put? && es[i].Look? && es[i].id == es[p].id
    requires Readable(es, es[p].id) && Untouched(es, p, i, es[p].id)
    ensures es[i].answer.Found? <==> es[i].now < es[p].secret.expiresAt
    ensures es[i].answer.Found? ==>
              es[i].answer.secret
              == es[p].secret.(remaining := es[p].secret.total - if es[i].op == Take then 1 else 0)
  {
    AccountAfterPut(es, p, i);
    LookupsRefineHistory(lim, es, ss, i);
  }

  /** The last read of a live entry, as a step. */
  lemma LastTake(lim: Limits, s: State, id: Id, now: Instant)
    requires id in s.entries && s.entries[id].remaining == 1 && now < s.entries[id].expiresAt
    ensures LookStep(lim, s, Look(Take, id, now, now, Found(s.entries[id].(remaining := 0))),
                     Remove(lim, s, id, Consumed, now))
  {
    hide Remove;
  }

  /** A run in which a second Put revives a consumed ID. */
  lemma RevivedRun(id: Id, secret: Secret) returns (es: seq<Event>, ss: seq<State>)
    requires secret.createdAt == 0 && secret.remaining == secret.total == 1 && secret.expiresAt > 4
    ensures Run(Limits(10, 10), es, ss) && !FreshId(es, id) && |es| == 5
    ensures es[1].Look? && es[1].op == Take && es[1].id == id && es[1].answer == Found(secret.(remaining := 0))
    ensures es[2].Look? && es[2].id == id && es[2].answer == Gone(Consumed, 1)
    ensures es[3].Put? && es[3].id == id && es[4].Look? && es[4].id == id && es[4].answer.Found?
    ensures Readable(es, id) && Untouched(es, 3, 4, id)
  {
    var lim, again := Limits(10, 10), secret.(createdAt := 3);
    var s1 := State(map[id := secret], map[]);
    var s2 := State(map[], map[id := Tombstone(Consumed, 1, Max(secret.expiresAt, 1 + DAY))]);
    var s3 := State(map[id := again], s2.tombs);
    var put, take := Put(id, secret, 0), Look(Take, id, 1, 1, Found(secret.(remaining := 0)));
    var look := Look(Peek, id, 2, 2, Gone(Consumed, 1));
    var reput, peek := Put(id, again, 3), Look(Peek, id, 4, 4, Found(again));
    es, ss := [put, take, look, reput, peek], [EMPTY, s1, s2, s2, s3, s3];
    assert PutStep(lim, EMPTY, put, s1);
    LastTake(lim, s1, id, 1);
    assert s1.entries - {id} == map[];
    assert LookStep(lim, s2, look, s2);
    assert PutStep(lim, s2, reput, s3);
    assert LookStep(lim, s3, peek, s3);
    assert es[0].Put? && es[3].Put? && es[0].id == id == es[3].id;
    hide PutStep, LookStep;
  }
}
