/** Correctness never depends on when the janitor runs: two runs that differ only in their purges answer alike. */
module StoreJanitor {
  import opened StoreLaws
  import opened StoreSpec
  import opened Wrappers

  /** The stored secrets and lookups of a run, without the purges and the refused puts. */
  function Requests(es: seq<Event>): seq<Event> {
    if es == [] then []
    else
      var e, before := es[|es| - 1], Requests(es[..|es| - 1]);
      if e.Put? || e.Look? then before + [e] else before
  }

  /** The stored secrets and the lookups of a run are its requests, each in its place. */
  lemma RequestsOn(es: seq<Event>, e: Event)
    ensures Requests(es + [e]) == Requests(es) + if e.Put? || e.Look? then [e] else []
  {
    assert (es + [e])[..|es|] == es;
  }

  /** The same request at the same time, whatever the answer and whatever the clock showed at its end. */
  predicate SameRequest(e: Event, e': Event) {
    || (e.Put? && e == e')
    || (e.Look? && e'.Look? && e.op == e'.op && e.id == e'.id && e.now == e'.now)
  }

  /** The same secret, or no secret for either. */
  predicate SameFind(e: Event, e': Event) {
    e.Look? && e'.Look? && (e.answer.Found? || e'.answer.Found?) ==> e.answer == e'.answer
  }

  predicate Alike(rs: seq<Event>, rs': seq<Event>) {
    |rs| == |rs'| && forall i :: 0 <= i < |rs| ==> SameRequest(rs[i], rs'[i]) && SameFind(rs[i], rs'[i])
  }

  /** Whatever is stored under any ID allows at least one read. */
  ghost predicate AllReadable(es: seq<Event>) {
    forall id :: Readable(es, id)
  }

  /** Whether a request ended a secret: a revocation, or the last read. */
  predicate Ending(e: Event) {
    e.Look? && e.answer.Found? && (e.op == Revoke || (e.op == Take && e.answer.secret.remaining <= 0))
  }

  /** The requests that ended the ID's secrets read the same time at their end in both runs. */
  predicate EndedTogether(rs: seq<Event>, rs': seq<Event>, id: Id)
    requires |rs| == |rs'|
  {
    forall i :: 0 <= i < |rs| && Ending(rs[i]) && Ending(rs'[i]) && rs[i].id == id ==> rs[i].later == rs'[i].later
  }

  // ----- accounts of runs that answer alike -----

  /** Ledgers that agree but for the times of reads and of a revocation. */
  predicate SameLedger(a: Option<Ledger>, b: Option<Ledger>) {
    (a.Some? <==> b.Some?)
    && (a.Some? ==>
         && a.value.secret == b.value.secret && a.value.taken == b.value.taken
         && (a.value.revoked.Some? <==> b.value.revoked.Some?))
  }

  /** And that agree on the time of the end, if there was one. */
  predicate SameEnd(a: Option<Ledger>, b: Option<Ledger>) {
    && SameLedger(a, b)
    && (a.Some? ==>
         && a.value.revoked == b.value.revoked
         && (a.value.taken >= a.value.secret.total ==> a.value.lastTake == b.value.lastTake))
  }

  lemma {:induction false} AccountOfRequests(es: seq<Event>, id: Id)
    ensures Account(Requests(es), id) == Account(es, id)
  {
    if es != [] {
      var before := Requests(es[..|es| - 1]);
      AccountOfRequests(es[..|es| - 1], id);
      assert (before + [es[|es| - 1]])[..|before|] == before;
    }
  }

  lemma {:induction false} EventOfRequest(es: seq<Event>, i: nat) returns (n: nat)
    requires i < |Requests(es)|
    ensures n < |es| && es[n] == Requests(es)[i] && Requests(es[..n]) == Requests(es)[..i]
  {
    var m := |es| - 1;
    var before := Requests(es[..m]);
    if i < |before| {
      n := EventOfRequest(es[..m], i);
      assert es[..m][..n] == es[..n];
      assert Requests(es)[..i] == before[..i];
    } else {
      n := m;
      assert Requests(es)[..i] == before;
    }
  }

  lemma {:induction false} SameAccounts(rs: seq<Event>, rs': seq<Event>, id: Id)
    requires Alike(rs, rs')
    ensures SameLedger(Account(rs, id), Account(rs', id))
  {
    if rs != [] {
      var m := |rs| - 1;
      SameAccounts(rs[..m], rs'[..m], id);
      assert SameRequest(rs[m], rs'[m]) && SameFind(rs[m], rs'[m]);
    }
  }

  /** One request, given that all earlier ones found alike. */
  lemma SameNextFind(lim: Limits, es: seq<Event>, ss: seq<State>, es': seq<Event>, ss': seq<State>, i: nat)
    requires Run(lim, es, ss) && AllReadable(es) && Run(lim, es', ss') && AllReadable(es')
    requires i < |Requests(es)| && i < |Requests(es')| && SameRequest(Requests(es)[i], Requests(es')[i])
    requires Alike(Requests(es)[..i], Requests(es')[..i])
    ensures SameFind(Requests(es)[i], Requests(es')[i])
  {
    var n := EventOfRequest(es, i);
    var n' := EventOfRequest(es', i);
    var e, e' := es[n], es'[n'];
    if e.Look? {
      AccountOfRequests(es[..n], e.id);
      AccountOfRequests(es'[..n'], e.id);
      SameAccounts(Requests(es)[..i], Requests(es')[..i], e.id);
      assert Readable(es, e.id) && Readable(es', e.id);
      hide Run, AllReadable, Readable, Requests, Account, Alike;
      LookupsRefineHistory(lim, es, ss, n);
      LookupsRefineHistory(lim, es', ss', n');
    }
  }

  /**
   * Two runs with the same requests at the same times, whatever their purges and whatever further clock
   * readings their steps made: every lookup finds the same secret with the same reads left, or none, in both.
   */
  lemma {:induction false} JanitorIsInvisible(lim: Limits, es: seq<Event>, ss: seq<State>,
                                              es': seq<Event>, ss': seq<State>, n: nat)
    requires Run(lim, es, ss) && AllReadable(es) && Run(lim, es', ss') && AllReadable(es')
    requires n <= |Requests(es)| == |Requests(es')|
    requires forall i :: 0 <= i < |Requests(es)| ==> SameRequest(Requests(es)[i], Requests(es')[i])
    ensures Alike(Requests(es)[..n], Requests(es')[..n])
  {
    hide Run, AllReadable, Requests, SameRequest, SameFind;
    if n > 0 {
      JanitorIsInvisible(lim, es, ss, es', ss', n - 1);
      SameNextFind(lim, es, ss, es', ss', n - 1);
      forall i | 0 <= i < n
        ensures SameFind(Requests(es)[..n][i], Requests(es')[..n][i])
      {
        if i < n - 1 { assert SameFind(Requests(es)[..n - 1][i], Requests(es')[..n - 1][i]); }
      }
    }
  }

  /** What a run reports gone is the fate that its requests give the ID. */
  lemma ReportIsFate(lim: Limits, es: seq<Event>, ss: seq<State>, i: nat)
    requires Run(lim, es, ss) && i < |Requests(es)| && Requests(es)[i].Look? && Requests(es)[i].answer.Gone?
    requires FreshId(es, Requests(es)[i].id)
    ensures var a := Account(Requests(es)[..i], Requests(es)[i].id);
            a.Some? && (Requests(es)[i].answer.reason, Requests(es)[i].answer.at) == a.value.Fate()
  {
    var n := EventOfRequest(es, i);
    AccountOfRequests(es[..n], es[n].id);
    hide Run, FreshId, Requests, Account;
    GoneIsFate(lim, es, ss, n);
  }

  /** What both runs report gone they report gone for the same reason, and expired at the same time. */
  lemma ReportsAgree(lim: Limits, es: seq<Event>, ss: seq<State>, es': seq<Event>, ss': seq<State>, i: nat)
    requires Run(lim, es, ss) && AllReadable(es) && Run(lim, es', ss') && AllReadable(es')
    requires i < |Requests(es)| == |Requests(es')|
    requires forall j :: 0 <= j < |Requests(es)| ==> SameRequest(Requests(es)[j], Requests(es')[j])
    requires Requests(es)[i].Look? && Requests(es)[i].answer.Gone?
    requires Requests(es')[i].Look? && Requests(es')[i].answer.Gone?
    requires FreshId(es, Requests(es)[i].id) && FreshId(es', Requests(es)[i].id)
    ensures Requests(es)[i].answer.reason == Requests(es')[i].answer.reason
    ensures Requests(es)[i].answer.reason == Expired ==> Requests(es)[i].answer.at == Requests(es')[i].answer.at
  {
    assert SameRequest(Requests(es)[i], Requests(es')[i]);
    hide Run, AllReadable, FreshId, Requests, Account, Alike;
    JanitorIsInvisible(lim, es, ss, es', ss', i);
    SameAccounts(Requests(es)[..i], Requests(es')[..i], Requests(es)[i].id);
    ReportIsFate(lim, es, ss, i);
    ReportIsFate(lim, es', ss', i);
  }

  // ----- the times of last reads and revocations -----

  /** Every read that a request sequence records left what its history says. */
  predicate ReadsCounted(rs: seq<Event>, id: Id) {
    forall i :: 0 <= i < |rs| && rs[i].Look? && rs[i].op == Take && rs[i].id == id && rs[i].answer.Found? ==>
      var a := Account(rs[..i], id);
      a.Some? && rs[i].answer.secret.remaining == a.value.secret.total - a.value.taken - 1
  }

  lemma RunCountsReads(lim: Limits, es: seq<Event>, ss: seq<State>, id: Id)
    requires Run(lim, es, ss) && Readable(es, id)
    ensures ReadsCounted(Requests(es), id)
  {
    var rs := Requests(es);
    forall i | 0 <= i < |rs| && rs[i].Look? && rs[i].op == Take && rs[i].id == id && rs[i].answer.Found?
      ensures var a := Account(rs[..i], id);
              a.Some? && rs[i].answer.secret.remaining == a.value.secret.total - a.value.taken - 1
    {
      var n := EventOfRequest(es, i);
      AccountOfRequests(es[..n], id);
      LookupsRefineHistory(lim, es, ss, n);
    }
  }

  lemma {:induction false} StoredRequest(es: seq<Event>, i: nat)
    requires i < |Requests(es)|
    ensures Requests(es)[i] in es
  {
    var n := EventOfRequest(es, i);
  }

  lemma CountedBefore(lim: Limits, es: seq<Event>, ss: seq<State>, i: nat, id: Id)
    requires Run(lim, es, ss) && Readable(es, id) && i <= |Requests(es)|
    ensures ReadsCounted(Requests(es)[..i], id)
    ensures forall j :: 0 <= j < i && Requests(es)[j].Put? && Requests(es)[j].id == id ==>
              Requests(es)[j].secret.total >= 1
  {
    var rs := Requests(es);
    RunCountsReads(lim, es, ss, id);
    forall j | 0 <= j < i
      ensures rs[..i][..j] == rs[..j] && rs[j] in es
    {
      StoredRequest(es, j);
    }
  }

  lemma {:induction false} SameEnds(rs: seq<Event>, rs': seq<Event>, id: Id)
    requires Alike(rs, rs') && EndedTogether(rs, rs', id) && ReadsCounted(rs, id)
    requires forall i :: 0 <= i < |rs| && rs[i].Put? && rs[i].id == id ==> rs[i].secret.total >= 1
    ensures SameEnd(Account(rs, id), Account(rs', id))
  {
    if rs != [] {
      var m := |rs| - 1;
      assert ReadsCounted(rs[..m], id) by {
        forall i | 0 <= i < m
          ensures rs[..m][..i] == rs[..i]
        {}
      }
      SameEnds(rs[..m], rs'[..m], id);
      SameAccounts(rs[..m], rs'[..m], id);
      assert SameRequest(rs[m], rs'[m]) && SameFind(rs[m], rs'[m]);
    }
  }

  /** If moreover the steps that ended the ID read the same time in both runs, the reports are the same. */
  lemma JanitorKeepsTimes(lim: Limits, es: seq<Event>, ss: seq<State>, es': seq<Event>, ss': seq<State>, i: nat)
    requires Run(lim, es, ss) && AllReadable(es) && Run(lim, es', ss') && AllReadable(es')
    requires i < |Requests(es)| == |Requests(es')|
    requires forall j :: 0 <= j < |Requests(es)| ==> SameRequest(Requests(es)[j], Requests(es')[j])
    requires Requests(es)[i].Look? && Requests(es)[i].answer.Gone?
    requires Requests(es')[i].Look? && Requests(es')[i].answer.Gone?
    requires FreshId(es, Requests(es)[i].id) && FreshId(es', Requests(es)[i].id)
    requires EndedTogether(Requests(es)[..i], Requests(es')[..i], Requests(es)[i].id)
    ensures Requests(es)[i].answer == Requests(es')[i].answer
  {
    var rs, rs', id := Requests(es), Requests(es'), Requests(es)[i].id;
    assert SameRequest(rs[i], rs'[i]) && Readable(es, id);
    hide Run, AllReadable, FreshId, Readable, Requests, Account, Alike, EndedTogether, ReadsCounted;
    JanitorIsInvisible(lim, es, ss, es', ss', i);
    CountedBefore(lim, es, ss, i, id);
    SameEnds(rs[..i], rs'[..i], id);
    ReportIsFate(lim, es, ss, i);
    ReportIsFate(lim, es', ss', i);
  }

  // ----- an instance -----

  lemma ExpiryIsStep(lim: Limits, s: State, id: Id, now: Instant, later: Instant)
    requires id in s.entries && s.entries[id].expiresAt <= now <= later && !AtCap(lim, s.tombs)
    ensures LookStep(lim, s, Look(Peek, id, now, later, Gone(Expired, s.entries[id].expiresAt)),
                     Remove(lim, s, id, Expired, later))
  {}

  lemma SweepIsStep(lim: Limits, id: Id, x: Secret, now: Instant)
    requires x.expiresAt <= now && lim.maxTombstones > 0
    ensures var tombs := map[id := Tombstone(Expired, x.expiresAt, Max(x.expiresAt, now + DAY))];
            PurgeStep(lim, State(map[id := x], map[]), Purge(now, now, tombs), State(map[], tombs))
  {
    var s := State(map[id := x], map[]);
    var tombs := map[id := Tombstone(Expired, x.expiresAt, Max(x.expiresAt, now + DAY))];
    assert Overdue(s, now) == {id};
    assert map[] + tombs == tombs && Standing(tombs, now) == tombs;
    assert s.entries - {id} == map[];
  }

  lemma LazyRun(id: Id, x: Secret) returns (es: seq<Event>, ss: seq<State>)
    requires x.createdAt == 0 && x.remaining == x.total == 1 && x.expiresAt == 5
    ensures Run(Limits(10, 10), es, ss) && es == [Put(id, x, 0), Look(Peek, id, 10, 11, Gone(Expired, 5))]
  {
    var lim, s := Limits(10, 10), State(map[id := x], map[]);
    es := [Put(id, x, 0), Look(Peek, id, 10, 11, Gone(Expired, 5))];
    ss := [EMPTY, s, Remove(lim, s, id, Expired, 11)];
    assert PutStep(lim, EMPTY, es[0], s);
    ExpiryIsStep(lim, s, id, 10, 11);
    hide PutStep, LookStep, Remove;
  }

  lemma PurgedRun(id: Id, x: Secret) returns (es: seq<Event>, ss: seq<State>)
    requires x.createdAt == 0 && x.remaining == x.total == 1 && x.expiresAt == 5
    ensures Run(Limits(10, 10), es, ss) && |es| == 3 && es[1].Purge?
    ensures es[0] == Put(id, x, 0) && es[2] == Look(Peek, id, 10, 10, Gone(Expired, 5))
  {
    var lim, s := Limits(10, 10), State(map[id := x], map[]);
    var tombs := map[id := Tombstone(Expired, 5, 9 + DAY)];
    es := [Put(id, x, 0), Purge(9, 9, tombs), Look(Peek, id, 10, 10, Gone(Expired, 5))];
    ss := [EMPTY, s, State(map[], tombs), State(map[], tombs)];
    assert PutStep(lim, EMPTY, es[0], s);
    SweepIsStep(lim, id, x, 9);
    assert LookStep(lim, State(map[], tombs), es[2], State(map[], tombs));
    hide PutStep, LookStep, PurgeStep;
  }

  /** Expired lazily in one run, purged before in the other: the same request, with different second readings. */
  lemma LazyOrPurged(id: Id, x: Secret)
    returns (es: seq<Event>, ss: seq<State>, es': seq<Event>, ss': seq<State>)
    requires x.createdAt == 0 && x.remaining == x.total == 1 && x.expiresAt == 5
    ensures Run(Limits(10, 10), es, ss) && Run(Limits(10, 10), es', ss') && |es| == 2 && |es'| == 3
    ensures es'[1].Purge? && Alike(Requests(es), Requests(es')) && |Requests(es)| == 2
    ensures AllReadable(es) && AllReadable(es') && EndedTogether(Requests(es), Requests(es'), id)
    ensures es[1].Look? && es'[2].Look? && es[1].answer == es'[2].answer == Gone(Expired, 5)
    ensures es[1].later != es'[2].later
  {
    es, ss := LazyRun(id, x);
    es', ss' := PurgedRun(id, x);
    hide Run;
    RequestsOn([], es[0]);
    RequestsOn([es[0]], es[1]);
    assert [] + [es[0]] == [es[0]] && [es[0]] + [es[1]] == es;
    RequestsOn([], es'[0]);
    RequestsOn([es'[0]], es'[1]);
    RequestsOn([es'[0], es'[1]], es'[2]);
    assert [] + [es'[0]] == [es'[0]] && [es'[0]] + [es'[1]] == [es'[0], es'[1]];
    assert [es'[0], es'[1]] + [es'[2]] == es';
  }
}
