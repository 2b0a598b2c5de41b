/** How long evidence lasts, and what is conserved, over every run of the store. */
module StoreEvidence {
  import opened StoreLaws
  import opened StoreSpec
  import opened Wrappers

  // ----- tombstones last their term -----

  lemma BuriedStays(lim: Limits, s: State, at: Id, now: Instant, id: Id)
    requires id in s.tombs && id !in s.entries && at in s.entries
    ensures forall r :: var t := Remove(lim, s, at, r, now);
              id !in t.entries && id in t.tombs && t.tombs[id] == s.tombs[id]
  {}

  lemma SettleStays(lim: Limits, s: State, at: Id, now: Instant, later: Instant, id: Id)
    requires id in s.tombs && id !in s.entries && now < s.tombs[id].until
    ensures var t := Settle(lim, s, at, now, later);
            id !in t.entries && id in t.tombs && t.tombs[id] == s.tombs[id]
  {
    hide Remove;
    if at in s.entries { BuriedStays(lim, s, at, later, id); }
  }

  /** A step before the term of a tombstone leaves it in place. */
  lemma TombstoneStays(lim: Limits, s: State, e: Event, s': State, id: Id)
    requires Step(lim, s, e, s') && id in s.tombs && id !in s.entries && !(e.Put? && e.id == id)
    requires e.now < s.tombs[id].until
    ensures id !in s'.entries && id in s'.tombs && s'.tombs[id] == s.tombs[id]
  {
    hide LookStep, CapHonoured, FairTomb;
    match e
    case Put(_, _, _) =>
    case Refused(_) =>
    case Look(_, _, _, _, _) => LookStays(lim, s, e, s', id);
    case Purge(_, _, _) =>
      assert id !in e.buried;
  }

  lemma LookStays(lim: Limits, s: State, e: Event, s': State, id: Id)
    requires e.Look? && LookStep(lim, s, e, s') && id in s.tombs && id !in s.entries && e.now < s.tombs[id].until
    ensures id !in s'.entries && id in s'.tombs && s'.tombs[id] == s.tombs[id]
  {
    var t := Settle(lim, s, e.id, e.now, e.later);
    SettleStays(lim, s, e.id, e.now, e.later, id);
    hide Settle, Remove;
    if e.id in t.entries { BuriedStays(lim, t, e.id, e.later, id); }
  }

  lemma {:induction false} TombstoneLasts(lim: Limits, es: seq<Event>, ss: seq<State>, n: nat, j: nat, id: Id)
    requires Run(lim, es, ss) && FreshId(es, id) && n <= j < |es|
    requires id in ss[n].tombs && es[j].now < ss[n].tombs[id].until
    ensures id !in ss[j].entries && id in ss[j].tombs && ss[j].tombs[id] == ss[n].tombs[id]
  {
    hide Step;
    RunAgrees(lim, es, ss, n, id);
    if n < j {
      assert es[j - 1].now <= es[j].now;
      TombstoneLasts(lim, es, ss, n, j - 1, id);
      RunAgrees(lim, es, ss, j - 1, id);
      if es[j - 1].Put? && es[j - 1].id == id { PutsAreFirst(es, j - 1, id); }
      TombstoneStays(lim, ss[j - 1], es[j - 1], ss[j], id);
    }
  }

  /** A recorded tombstone answers every lookup until its term, whatever else runs in between. */
  lemma TombstoneAnswers(lim: Limits, es: seq<Event>, ss: seq<State>, n: nat, j: nat)
    requires Run(lim, es, ss) && n <= j < |es| && es[j].Look? && FreshId(es, es[j].id)
    requires es[j].id in ss[n].tombs && es[j].now < ss[n].tombs[es[j].id].until
    ensures es[j].answer == Gone(ss[n].tombs[es[j].id].reason, ss[n].tombs[es[j].id].at)
  {
    TombstoneLasts(lim, es, ss, n, j, es[j].id);
    assert Step(lim, ss[j], es[j], ss[j + 1]);
  }

  // ----- outlived evidence goes -----

  /** Of an ID that is not held, a lookup reports evidence exactly until its term, and then forgets it. */
  lemma GoneExactly(lim: Limits, es: seq<Event>, ss: seq<State>, i: nat)
    requires Run(lim, es, ss) && i < |es| && es[i].Look? && es[i].id !in ss[i].entries
    ensures es[i].answer.Gone? <==> es[i].id in ss[i].tombs && es[i].now < ss[i].tombs[es[i].id].until
    ensures es[i].answer == Unknown <==> es[i].id !in ss[i].tombs || ss[i].tombs[es[i].id].until <= es[i].now
    ensures es[i].answer == Unknown ==> es[i].id !in ss[i + 1].tombs
  {
    RunStep(lim, es, ss, i);
    hide Run, AtCap;
  }

  /** Outlived tombstones take no room after a purge: only those that stand and the new ones count. */
  lemma OutlivedTakeNoRoom(lim: Limits, s: State, e: Event, s': State, standing: set<Id>)
    requires e.Purge? && PurgeStep(lim, s, e, s') && e.now <= e.later
    requires forall id :: id in s.tombs && e.now < s.tombs[id].until ==> id in standing
    ensures |s'.tombs| <= |standing| + |e.buried|
  {
    PurgeClears(lim, s, e, s');
    hide PurgeStep;
    assert s'.tombs.Keys <= standing + e.buried.Keys;
    SubsetSize(s'.tombs.Keys, standing + e.buried.Keys);
    assert |s'.tombs| == |s'.tombs.Keys| && |e.buried| == |e.buried.Keys|;
    UnionAtMost(standing, e.buried.Keys);
  }

  lemma UnionAtMost<T>(a: set<T>, b: set<T>)
    ensures |a + b| <= |a| + |b|
  {
    assert a + b == a + (b - a);
    SubsetSize(b - a, b);
  }

  // ----- when a departure leaves a tombstone -----

  /** Room for evidence: the cap is not exceeded by all that this step has to bury. */
  predicate Room(lim: Limits, s: State, e: Event) {
    |s.tombs| + (if e.Purge? then |Overdue(s, e.now)| else 1) <= lim.maxTombstones
  }

  ghost predicate Departs(s: State, s': State, id: Id) {
    id in s.entries && id !in s'.entries
  }

  /** When the burial happens: a lookup reads the clock again for it, a purge does so entry by entry. */
  function BurialTime(e: Event): Instant {
    if e.Look? then e.later else e.now
  }

  lemma OnlyItsOwn(lim: Limits, s: State, e: Event, s': State, id: Id)
    requires e.Look? && LookStep(lim, s, e, s') && Departs(s, s', id)
    ensures e.id == id
  {
    hide Bury;
  }

  /** A lookup that ends an entry leaves evidence exactly when the cap leaves room for it. */
  lemma LookBuries(lim: Limits, s: State, e: Event, s': State)
    requires e.Look? && LookStep(lim, s, e, s') && Departs(s, s', e.id) && e.id !in s.tombs && e.now <= e.later
    ensures e.id in s'.tombs <==> |s.tombs| < lim.maxTombstones
    ensures e.id in s'.tombs ==> s'.tombs[e.id].until == Max(s.entries[e.id].expiresAt, e.later + DAY)
    ensures e.id in s'.tombs ==>
              var until, deadline, day := s'.tombs[e.id].until, s.entries[e.id].expiresAt, e.later + 86_400_000_000_000;
              deadline <= until && day <= until && (until == deadline || until == day)
  {
    if e.now < s.entries[e.id].expiresAt {
      assert Settle(lim, s, e.id, e.now, e.later) == s;
    } else {
      var t := Remove(lim, s, e.id, Expired, e.later);
      assert e.id in t.tombs ==> e.now < t.tombs[e.id].until;
      assert Settle(lim, s, e.id, e.now, e.later) == t;
      hide Settle, Remove;
      assert s' == t;
    }
  }

  /** What a purge buries is not among the tombstones it goes on to drop. */
  lemma BuriedStand(lim: Limits, s: State, e: Event, s': State)
    requires e.Purge? && PurgeStep(lim, s, e, s') && e.now <= e.later && Overdue(s, e.now) !! s.tombs.Keys
    ensures Overdue(s, e.now) <= s'.tombs.Keys <==> e.buried.Keys == Overdue(s, e.now)
  {
    hide CapHonoured;
  }

  /**
   * A purge leaves evidence of every overdue entry exactly when the cap leaves room for all of them, and
   * otherwise of as many as there is room for.
   */
  lemma PurgeBuries(lim: Limits, s: State, e: Event, s': State)
    requires e.Purge? && PurgeStep(lim, s, e, s') && e.now <= e.later
    requires Overdue(s, e.now) != {} && Overdue(s, e.now) !! s.tombs.Keys
    ensures Overdue(s, e.now) <= s'.tombs.Keys <==> |s.tombs| + |Overdue(s, e.now)| <= lim.maxTombstones
    ensures |e.buried| == if |s.tombs| + |Overdue(s, e.now)| <= lim.maxTombstones then |Overdue(s, e.now)|
                          else Max(0, lim.maxTombstones - |s.tombs|)
  {
    var overdue, all := Overdue(s, e.now), s.tombs + e.buried;
    assert |e.buried| == |e.buried.Keys|;
    BuriedStand(lim, s, e, s');
    hide Overdue, Standing, FairTomb;
    UnionSize(s.tombs, e.buried);
    SubsetSize(e.buried.Keys, overdue);
    if e.buried.Keys != overdue { StrictSubsetSize(e.buried.Keys, overdue); }
  }

  lemma UnionSize<K, V>(a: map<K, V>, b: map<K, V>)
    requires a.Keys !! b.Keys
    ensures |a + b| == |a| + |b|
  {
    assert (a + b).Keys == a.Keys + b.Keys;
    assert |a + b| == |(a + b).Keys| && |a| == |a.Keys| && |b| == |b.Keys|;
  }

  lemma StrictSubsetSize<T>(a: set<T>, b: set<T>)
    requires a < b
    ensures |a| < |b|
  {
    var x :| x in b && x !in a;
    SubsetSize(a + {x}, b);
  }

  /** How long what a purge buries stands. */
  lemma PurgedTerm(lim: Limits, s: State, e: Event, s': State, id: Id)
    requires e.Purge? && PurgeStep(lim, s, e, s') && id in Overdue(s, e.now) && id !in s.tombs && id in s'.tombs
    ensures s'.tombs[id].until >= Max(s.entries[id].expiresAt, e.now + DAY)
  {
    hide CapHonoured;
  }

  lemma DepartsOverdue(lim: Limits, s: State, e: Event, s': State, id: Id)
    requires e.Purge? && PurgeStep(lim, s, e, s') && Departs(s, s', id)
    ensures id in Overdue(s, e.now)
  {
    hide CapHonoured;
  }

  /**
   * An entry leaves only by its last read, a revocation or its expiry. Given room it leaves a tombstone
   * that stands until the later of the original deadline and a day after the burial.
   */
  lemma DepartureIsBuried(lim: Limits, s: State, e: Event, s': State, id: Id)
    requires Step(lim, s, e, s') && Departs(s, s', id) && s.entries.Keys !! s.tombs.Keys && e.now <= e.End()
    requires Room(lim, s, e)
    ensures id in s'.tombs && s'.tombs[id].until >= Max(s.entries[id].expiresAt, BurialTime(e) + DAY)
    ensures s'.tombs[id].until >= s.entries[id].expiresAt
    ensures s'.tombs[id].until >= (if e.Look? then e.later else e.now) + 86_400_000_000_000
  {
    hide LookStep, PurgeStep;
    match e
    case Put(_, _, _) =>
    case Refused(_) =>
    case Look(_, _, _, _, _) =>
      OnlyItsOwn(lim, s, e, s', id);
      LookBuries(lim, s, e, s');
    case Purge(_, _, _) =>
      assert id in Overdue(s, e.now) by { DepartsOverdue(lim, s, e, s', id); }
      PurgeBuries(lim, s, e, s');
      PurgedTerm(lim, s, e, s', id);
  }

  lemma HeldOrBuried(lim: Limits, es: seq<Event>, ss: seq<State>, n: nat)
    requires Run(lim, es, ss) && FreshIds(es) && n <= |es|
    ensures ss[n].entries.Keys !! ss[n].tombs.Keys
  {
    hide Step;
    forall id | id in ss[n].entries
      ensures id !in ss[n].tombs
    {
      RunAgrees(lim, es, ss, n, id);
    }
  }

  /**
   * The main retention law: when an entry leaves with room for evidence, every later lookup before the
   * later of its deadline and a day after the burial reports it gone, with the truthful reason.
   */
  lemma EvidenceLasts(lim: Limits, es: seq<Event>, ss: seq<State>, i: nat, j: nat, id: Id)
    requires Run(lim, es, ss) && FreshIds(es) && i < j < |es|
    requires Departs(ss[i], ss[i + 1], id) && Room(lim, ss[i], es[i])
    requires es[j].Look? && es[j].id == id && es[j].now < Max(ss[i].entries[id].expiresAt, BurialTime(es[i]) + DAY)
    ensures es[j].answer.Gone? && Account(es[..j], id).Some?
    ensures (es[j].answer.reason, es[j].answer.at) == Account(es[..j], id).value.Fate()
  {
    hide Step;
    HeldOrBuried(lim, es, ss, i);
    DepartureIsBuried(lim, ss[i], es[i], ss[i + 1], id);
    TombstoneAnswers(lim, es, ss, i + 1, j);
    GoneIsFate(lim, es, ss, j);
  }

  /** The store after two secrets were stored under a cap of one tombstone, and then both read up. */
  function Spent(a: Id, b: Id, x: Secret, spent: nat): State {
    State(if spent == 0 then map[a := x, b := x] else if spent == 1 then map[b := x] else map[],
          if spent == 0 then map[] else map[a := Tombstone(Consumed, 1, Max(x.expiresAt, 1 + DAY))])
  }

  lemma FirstBuried(a: Id, b: Id, x: Secret)
    requires a != b && x.remaining == 1 && x.expiresAt > 1
    ensures Step(Limits(10, 1), Spent(a, b, x, 0), Look(Take, a, 1, 1, Found(x.(remaining := 0))), Spent(a, b, x, 1))
  {
    LastTake(Limits(10, 1), Spent(a, b, x, 0), a, 1);
    assert Spent(a, b, x, 0).entries - {a} == Spent(a, b, x, 1).entries;
    hide LookStep;
  }

  lemma SecondDropped(a: Id, b: Id, x: Secret)
    requires a != b && x.remaining == 1 && x.expiresAt > 2
    ensures Step(Limits(10, 1), Spent(a, b, x, 1), Look(Take, b, 2, 2, Found(x.(remaining := 0))), Spent(a, b, x, 2))
  {
    LastTake(Limits(10, 1), Spent(a, b, x, 1), b, 2);
    assert Spent(a, b, x, 1).entries - {b} == Spent(a, b, x, 2).entries;
    hide LookStep;
  }

  lemma BothAsked(a: Id, b: Id, x: Secret)
    requires a != b
    ensures Step(Limits(10, 1), Spent(a, b, x, 2), Look(Peek, a, 3, 3, Gone(Consumed, 1)), Spent(a, b, x, 2))
    ensures Step(Limits(10, 1), Spent(a, b, x, 2), Look(Peek, b, 3, 3, Unknown), Spent(a, b, x, 2))
  {}

  lemma BothStored(a: Id, b: Id, x: Secret)
    requires a != b && x.createdAt == 0 && x.remaining == x.total
    ensures Step(Limits(10, 1), EMPTY, Put(a, x, 0), State(map[a := x], map[]))
    ensures Step(Limits(10, 1), State(map[a := x], map[]), Put(b, x, 0), Spent(a, b, x, 0))
  {}

  function CapEvents(a: Id, b: Id, x: Secret): seq<Event> {
    [Put(a, x, 0), Put(b, x, 0), Look(Take, a, 1, 1, Found(x.(remaining := 0))),
     Look(Take, b, 2, 2, Found(x.(remaining := 0))), Look(Peek, a, 3, 3, Gone(Consumed, 1)),
     Look(Peek, b, 3, 3, Unknown)]
  }

  function CapStates(a: Id, b: Id, x: Secret): seq<State> {
    [EMPTY, State(map[a := x], map[]), Spent(a, b, x, 0), Spent(a, b, x, 1), Spent(a, b, x, 2),
     Spent(a, b, x, 2), Spent(a, b, x, 2)]
  }

  lemma CapRun(a: Id, b: Id, x: Secret)
    requires a != b && x.createdAt == 0 && x.remaining == x.total == 1 && x.expiresAt > 3
    ensures Run(Limits(10, 1), CapEvents(a, b, x), CapStates(a, b, x))
  {
    BothStored(a, b, x);
    FirstBuried(a, b, x);
    SecondDropped(a, b, x);
    BothAsked(a, b, x);
    CapTimely(a, b, x);
    hide Step, Spent, Timely;
  }

  lemma CapTimely(a: Id, b: Id, x: Secret)
    ensures Timely(CapEvents(a, b, x))
  {}

  lemma CapDepartures(a: Id, b: Id, x: Secret)
    requires a != b
    ensures var es, ss := CapEvents(a, b, x), CapStates(a, b, x);
            Departs(ss[2], ss[3], a) && Room(Limits(10, 1), ss[2], es[2]) && Departs(ss[3], ss[4], b)
  {}

  /**
   * Without room the law fails: of two secrets read up under a cap of one tombstone, the first is
   * reported gone and the second unknown.
   */
  lemma EvidenceDroppedAtCap(a: Id, b: Id, x: Secret) returns (es: seq<Event>, ss: seq<State>)
    requires a != b && x.createdAt == 0 && x.remaining == x.total == 1 && x.expiresAt > 3
    ensures Run(Limits(10, 1), es, ss) && FreshIds(es) && |es| == 6
    ensures Departs(ss[2], ss[3], a) && Room(Limits(10, 1), ss[2], es[2]) && Departs(ss[3], ss[4], b)
    ensures es[4].Look? && es[4].id == a && es[4].answer == Gone(Consumed, 1)
    ensures es[5].Look? && es[5].id == b && es[5].answer == Unknown && es[5].now < x.expiresAt
  {
    es, ss := CapEvents(a, b, x), CapStates(a, b, x);
    CapRun(a, b, x);
    CapDepartures(a, b, x);
    hide CapStates, Run, Departs, Room;
  }

  // ----- bounds -----

  lemma RemoveBounds(lim: Limits, s: State, at: Id, now: Instant)
    requires |s.tombs| <= lim.maxTombstones && at in s.entries
    ensures forall r :: var t := Remove(lim, s, at, r, now);
              |t.tombs| <= lim.maxTombstones && t.entries.Keys <= s.entries.Keys
  {}

  lemma SettleBounds(lim: Limits, s: State, at: Id, now: Instant, later: Instant)
    requires |s.tombs| <= lim.maxTombstones
    ensures |Settle(lim, s, at, now, later).tombs| <= lim.maxTombstones
    ensures Settle(lim, s, at, now, later).entries.Keys <= s.entries.Keys
  {
    var t := if at in s.entries then Remove(lim, s, at, Expired, later) else s;
    if at in s.entries { RemoveBounds(lim, s, at, later); }
    hide Remove;
    assert |t.tombs| <= lim.maxTombstones;
    assert (t.tombs - {at}).Keys <= t.tombs.Keys;
    SubsetSize((t.tombs - {at}).Keys, t.tombs.Keys);
  }

  lemma SubsetSize<T>(a: set<T>, b: set<T>)
    requires a <= b
    ensures |a| <= |b|
  {
    assert b == a + (b - a);
  }

  ghost predicate WithinLimits(lim: Limits, s: State) {
    |s.entries| <= lim.maxSecrets && |s.tombs| <= lim.maxTombstones
  }

  lemma LookKeepsLimits(lim: Limits, s: State, e: Event, s': State)
    requires e.Look? && LookStep(lim, s, e, s') && WithinLimits(lim, s)
    ensures WithinLimits(lim, s')
  {
    LookBounds(lim, s, e, s');
    hide LookStep;
    SubsetSize(s'.entries.Keys, s.entries.Keys);
  }

  lemma LookBounds(lim: Limits, s: State, e: Event, s': State)
    requires e.Look? && LookStep(lim, s, e, s') && |s.tombs| <= lim.maxTombstones
    ensures |s'.tombs| <= lim.maxTombstones && s'.entries.Keys <= s.entries.Keys
  {
    var t := Settle(lim, s, e.id, e.now, e.later);
    SettleBounds(lim, s, e.id, e.now, e.later);
    if e.id in t.entries { RemoveBounds(lim, t, e.id, e.later); }
    hide Settle, Remove;
  }

  lemma StepKeepsLimits(lim: Limits, s: State, e: Event, s': State)
    requires Step(lim, s, e, s') && WithinLimits(lim, s)
    ensures WithinLimits(lim, s')
  {
    hide LookStep;
    match e
    case Put(_, _, _) =>
    case Refused(_) =>
    case Look(_, _, _, _, _) => LookKeepsLimits(lim, s, e, s');
    case Purge(_, _, _) =>
      SubsetSize(s'.entries.Keys, s.entries.Keys);
      SubsetSize(s'.tombs.Keys, (s.tombs + e.buried).Keys);
  }

  /** In every run the store stays within both caps, and no ID is held and buried at once. */
  lemma {:induction false} RunWithinLimits(l: Limits, es: seq<Event>, ss: seq<State>, n: nat)
    requires Run(l.WithDefaults(), es, ss) && n <= |es|
    ensures WithinLimits(l.WithDefaults(), ss[n])
    ensures FreshIds(es) ==> ss[n].entries.Keys !! ss[n].tombs.Keys
  {
    hide Step;
    if n > 0 {
      RunWithinLimits(l, es, ss, n - 1);
      StepKeepsLimits(l.WithDefaults(), ss[n - 1], es[n - 1], ss[n]);
    }
    if FreshIds(es) { HeldOrBuried(l.WithDefaults(), es, ss, n); }
  }

  // ----- conservation -----

  /** How many secrets were stored, and how many left by their last read, by revocation and by expiry. */
  datatype Totals = Totals(stored: nat, consumed: nat, revoked: nat, expired: nat)

  predicate ExpiresNow(s: State, e: Event) {
    e.Look? && e.id in s.entries && s.entries[e.id].expiresAt <= e.now
  }

  function Tally(t: Totals, s: State, e: Event): Totals {
    match e
    case Put(_, _, _) => t.(stored := t.stored + 1)
    case Refused(_) => t
    case Purge(_, _, _) => t.(expired := t.expired + |Overdue(s, e.now)|)
    case Look(op, _, _, _, answer) =>
      if ExpiresNow(s, e) then t.(expired := t.expired + 1)
      else if op == Take && answer.Found? && answer.secret.remaining <= 0 then t.(consumed := t.consumed + 1)
      else if op == Revoke && answer.Found? then t.(revoked := t.revoked + 1)
      else t
  }

  /** Every step is counted under its cause, and under no other. */
  lemma TalliedByCause(lim: Limits, s: State, e: Event, s': State, t: Totals)
    requires Step(lim, s, e, s') && e.now <= e.End()
    ensures e.Put? ==> Tally(t, s, e) == t.(stored := t.stored + 1)
    ensures e.Refused? ==> Tally(t, s, e) == t
    ensures e.Purge? ==> Tally(t, s, e) == t.(expired := t.expired + (|s.entries| - |s'.entries|))
    ensures e.Look? && e.op == Take && e.answer.Found? && e.answer.secret.remaining <= 0 ==>
              Tally(t, s, e) == t.(consumed := t.consumed + 1)
    ensures e.Look? && e.op == Revoke && e.answer.Found? ==> Tally(t, s, e) == t.(revoked := t.revoked + 1)
    ensures e.Look? && e.id in s.entries && !e.answer.Found? ==> Tally(t, s, e) == t.(expired := t.expired + 1)
    ensures e.Look? && e.id !in s.entries ==> Tally(t, s, e) == t
  {
    hide AtCap, CapHonoured, FairTomb;
    match e
    case Put(_, _, _) =>
    case Refused(_) =>
    case Look(_, _, _, _, _) =>
      LookAnswers(lim, s, e, s');
      hide LookStep;
    case Purge(_, _, _) => EntriesLess(s.entries, Overdue(s, e.now));
  }

  lemma LookAnswers(lim: Limits, s: State, e: Event, s': State)
    requires e.Look? && LookStep(lim, s, e, s')
    ensures e.answer.Found? <==> e.id in s.entries && e.now < s.entries[e.id].expiresAt
  {
    hide Bury;
  }

  function TotalsOf(es: seq<Event>, ss: seq<State>, n: nat): Totals
    requires n <= |es| && |ss| == |es| + 1
  {
    if n == 0 then Totals(0, 0, 0, 0) else Tally(TotalsOf(es, ss, n - 1), ss[n - 1], es[n - 1])
  }

  predicate Balanced(t: Totals, s: State) {
    t.stored == |s.entries| + t.consumed + t.revoked + t.expired
  }

  lemma EntriesLess<K, V>(m: map<K, V>, ks: set<K>)
    requires ks <= m.Keys
    ensures |m - ks| == |m| - |ks|
  {
    assert (m - ks).Keys == m.Keys - ks;
  }

  lemma SettleCount(lim: Limits, s: State, at: Id, now: Instant, later: Instant)
    ensures var t := Settle(lim, s, at, now, later);
            |t.entries| == |s.entries| - if at in s.entries && s.entries[at].expiresAt <= now then 1 else 0
    ensures at in Settle(lim, s, at, now, later).entries <==> at in s.entries && now < s.entries[at].expiresAt
  {
    hide Bury;
    if at in s.entries { EntriesLess(s.entries, {at}); }
  }

  /** Whether a lookup ends an entry. */
  predicate Ends(s: State, e: Event)
    requires e.Look?
  {
    || ExpiresNow(s, e)
    || (e.answer.Found? && (e.op == Revoke || (e.op == Take && e.answer.secret.remaining <= 0)))
  }

  lemma LookCount(lim: Limits, s: State, e: Event, s': State)
    requires e.Look? && LookStep(lim, s, e, s')
    ensures |s'.entries| == |s.entries| - if Ends(s, e) then 1 else 0
  {
    var u := Settle(lim, s, e.id, e.now, e.later);
    SettleCount(lim, s, e.id, e.now, e.later);
    hide Settle, Bury;
    if e.id in u.entries { EntriesLess(u.entries, {e.id}); }
  }

  lemma LookKeepsBalance(lim: Limits, s: State, e: Event, s': State, t: Totals)
    requires e.Look? && LookStep(lim, s, e, s') && Balanced(t, s)
    ensures Balanced(Tally(t, s, e), s')
  {
    LookCount(lim, s, e, s');
    hide LookStep;
  }

  lemma PurgeKeepsBalance(lim: Limits, s: State, e: Event, s': State, t: Totals)
    requires e.Purge? && PurgeStep(lim, s, e, s') && Balanced(t, s)
    ensures Balanced(Tally(t, s, e), s')
  {
    hide CapHonoured, FairTomb, Standing;
    EntriesLess(s.entries, Overdue(s, e.now));
  }

  lemma StepKeepsBalance(lim: Limits, s: State, e: Event, s': State, t: Totals)
    requires Step(lim, s, e, s') && Balanced(t, s)
    requires e.Put? ==> e.id !in s.entries
    ensures Balanced(Tally(t, s, e), s')
  {
    hide LookStep, PurgeStep;
    match e
    case Put(_, _, _) =>
    case Refused(_) =>
    case Look(_, _, _, _, _) => LookKeepsBalance(lim, s, e, s', t);
    case Purge(_, _, _) => PurgeKeepsBalance(lim, s, e, s', t);
  }

  /** In every run: stored = held + consumed + revoked + expired. */
  lemma {:induction false} SecretsAreConserved(lim: Limits, es: seq<Event>, ss: seq<State>, n: nat)
    requires Run(lim, es, ss) && FreshIds(es) && n <= |es|
    ensures Balanced(TotalsOf(es, ss, n), ss[n])
  {
    hide Step, Balanced, Tally;
    if n == 0 {
      assert Balanced(Totals(0, 0, 0, 0), EMPTY) by { StartsBalanced(); }
    } else {
      SecretsAreConserved(lim, es, ss, n - 1);
      var e := es[n - 1];
      if e.Put? {
        RunAgrees(lim, es, ss, n - 1, e.id);
        PutsAreFirst(es, n - 1, e.id);
      }
      StepKeepsBalance(lim, ss[n - 1], e, ss[n], TotalsOf(es, ss, n - 1));
    }
  }

  lemma StartsBalanced()
    ensures Balanced(Totals(0, 0, 0, 0), EMPTY)
  {}
}
