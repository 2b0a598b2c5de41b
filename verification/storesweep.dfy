/** The janitor's sweep, entry by entry: what holds when some of the entries have been visited. */
module StoreSweep {
  import opened StoreSpec

  /** The overdue entries among those visited, when `rest` are still to be visited. */
  function Visited(s: State, now: Instant, rest: set<Id>): set<Id> {
    Overdue(s, now) - rest
  }

  ghost predicate SweptEntries(s: State, gone: set<Id>, entries: map<Id, Secret>) {
    && entries.Keys == s.entries.Keys - gone
    && forall id :: id in entries ==> entries[id] == s.entries[id]
  }

  /** The tombstones are the old ones and fair new ones for visited entries. */
  ghost predicate SweptTombs(s: State, now: Instant, later: Instant, gone: set<Id>,
                             buried: map<Id, Tombstone>, tombs: map<Id, Tombstone>)
  {
    && tombs == s.tombs + buried
    && buried.Keys <= gone <= s.entries.Keys
    && forall id :: id in buried ==> FairTomb(buried[id], s.entries[id].expiresAt, now, later)
  }

  /** How far a sweep that began in `s` at `now` has come. */
  ghost predicate SweepState(lim: Limits, s: State, now: Instant, later: Instant, rest: set<Id>,
                             buried: map<Id, Tombstone>, m: State)
  {
    var gone := Visited(s, now, rest);
    && SweptEntries(s, gone, m.entries)
    && SweptTombs(s, now, later, gone, buried, m.tombs)
    && CapHonoured(lim, s.tombs, m.tombs, buried.Keys == gone)
  }

  lemma SweepStarts(lim: Limits, s: State, now: Instant, later: Instant)
    ensures SweepState(lim, s, now, later, s.entries.Keys, map[], s)
    ensures Visited(s, now, s.entries.Keys) == {}
  {
    NoneVisited(s, now);
    CapAtStart(lim, s.tombs);
    hide Visited, CapHonoured, FairTomb;
    var none: map<Id, Tombstone> := map[];
    assert s.tombs + none == s.tombs && none.Keys == {};
  }

  lemma NoneVisited(s: State, now: Instant)
    ensures Visited(s, now, s.entries.Keys) == {}
  {}

  lemma CapAtStart(lim: Limits, tombs: map<Id, Tombstone>)
    ensures CapHonoured(lim, tombs, tombs, true)
  {}

  lemma VisitedGrows(s: State, now: Instant, rest: set<Id>, id: Id)
    requires id in rest && id in s.entries
    ensures Visited(s, now, rest - {id})
            == Visited(s, now, rest) + if s.entries[id].expiresAt <= now then {id} else {}
    ensures id !in Visited(s, now, rest) && Visited(s, now, rest) <= s.entries.Keys
  {}

  lemma SweepEntry(lim: Limits, s: State, now: Instant, later: Instant, rest: set<Id>,
                   buried: map<Id, Tombstone>, m: State, id: Id)
    requires SweepState(lim, s, now, later, rest, buried, m) && id in rest && id in s.entries
    ensures id in m.entries && m.entries[id] == s.entries[id]
  {}

  lemma SweepSkipped(lim: Limits, s: State, now: Instant, later: Instant, rest: set<Id>,
                     buried: map<Id, Tombstone>, m: State, id: Id)
    requires SweepState(lim, s, now, later, rest, buried, m)
    requires id in rest && id in s.entries && now < s.entries[id].expiresAt
    ensures SweepState(lim, s, now, later, rest - {id}, buried, m)
  {
    VisitedGrows(s, now, rest, id);
    hide Visited, CapHonoured, SweptEntries, SweptTombs;
    assert Visited(s, now, rest - {id}) == Visited(s, now, rest);
  }

  lemma DropOverdue(s: State, gone: set<Id>, id: Id, entries: map<Id, Secret>)
    requires SweptEntries(s, gone, entries) && id in entries
    ensures SweptEntries(s, gone + {id}, entries - {id})
  {}

  lemma UnionUpdate<K, V>(a: map<K, V>, b: map<K, V>, k: K, v: V)
    ensures a + b[k := v] == (a + b)[k := v]
  {}

  lemma FairLater(s: State, now: Instant, c: Instant, later: Instant, buried: map<Id, Tombstone>)
    requires c <= later && buried.Keys <= s.entries.Keys
    requires forall id :: id in buried ==> FairTomb(buried[id], s.entries[id].expiresAt, now, c)
    ensures forall id :: id in buried ==> FairTomb(buried[id], s.entries[id].expiresAt, now, later)
  {}

  /** An overdue entry goes without a tombstone. */
  lemma LeaveUnburied(s: State, now: Instant, c: Instant, later: Instant, gone: set<Id>, id: Id,
                      buried: map<Id, Tombstone>, tombs: map<Id, Tombstone>)
    requires SweptTombs(s, now, c, gone, buried, tombs) && c <= later && id in s.entries
    ensures SweptTombs(s, now, later, gone + {id}, buried, tombs)
  {
    hide FairTomb;
    FairLater(s, now, c, later, buried);
  }

  lemma BuryOverdue(s: State, now: Instant, c: Instant, later: Instant, gone: set<Id>, id: Id,
                    buried: map<Id, Tombstone>, tombs: map<Id, Tombstone>, tomb: Tombstone)
    requires SweptTombs(s, now, c, gone, buried, tombs) && c <= later
    requires id in s.entries && FairTomb(tomb, s.entries[id].expiresAt, now, later)
    ensures SweptTombs(s, now, later, gone + {id}, buried[id := tomb], tombs[id := tomb])
    ensures buried.Keys == gone ==> buried[id := tomb].Keys == gone + {id}
  {
    hide FairTomb;
    UnionUpdate(s.tombs, buried, id, tomb);
    FairLater(s, now, c, later, buried);
  }

  lemma SweepRemoved(lim: Limits, s: State, now: Instant, c: Instant, later: Instant, rest: set<Id>,
                     buried: map<Id, Tombstone>, m: State, id: Id) returns (buried': map<Id, Tombstone>)
    requires SweepState(lim, s, now, c, rest, buried, m) && now <= c <= later
    requires id in rest && id in s.entries && id in m.entries && s.entries[id].expiresAt <= now
    ensures SweepState(lim, s, now, later, rest - {id}, buried', Remove(lim, m, id, Expired, later))
  {
    var expiresAt, gone := s.entries[id].expiresAt, Visited(s, now, rest);
    VisitedGrows(s, now, rest, id);
    SweepEntry(lim, s, now, c, rest, buried, m, id);
    hide SweptEntries, SweptTombs, Visited, CapHonoured;
    DropOverdue(s, gone, id, m.entries);
    CapAfter(lim, s.tombs, m.tombs, id, expiresAt, later, buried.Keys == gone);
    if |m.tombs| >= lim.maxTombstones {
      buried' := buried;
      LeaveUnburied(s, now, c, later, gone, id, buried, m.tombs);
    } else {
      var tomb := Tombstone(Expired, expiresAt, Max(expiresAt, later + DAY));
      buried' := buried[id := tomb];
      BuryOverdue(s, now, c, later, gone, id, buried, m.tombs, tomb);
    }
  }

  lemma CapAfter(lim: Limits, before: map<Id, Tombstone>, m: map<Id, Tombstone>, id: Id, expiresAt: Instant,
                 later: Instant, complete: bool)
    requires CapHonoured(lim, before, m, complete)
    ensures forall any :: |m| >= lim.maxTombstones ==> CapHonoured(lim, before, m, any)
    ensures |m| < lim.maxTombstones ==>
              complete && CapHonoured(lim, before, Bury(lim, m, id, Expired, expiresAt, later), true)
  {}

  lemma Difference<K, V>(a: map<K, V>, b: map<K, V>, ks: set<K>)
    requires b.Keys == a.Keys - ks && forall k :: k in b ==> b[k] == a[k]
    ensures b == a - ks
  {}

  lemma PurgeIsStep(lim: Limits, s: State, now: Instant, later: Instant, buried: map<Id, Tombstone>,
                    m: State, s': State)
    requires SweepState(lim, s, now, later, {}, buried, m) && s' == State(m.entries, Standing(m.tombs, now))
    ensures Step(lim, s, Event.Purge(now, later, buried), s')
  {
    var e := Event.Purge(now, later, buried);
    hide LookStep, PutStep, Standing, CapHonoured, FairTomb, Overdue;
    NoneLeft(s, now);
    hide Visited;
    Difference(s.entries, m.entries, Overdue(s, now));
    assert PurgeStep(lim, s, e, s');
  }

  lemma SweptKeys(lim: Limits, s: State, now: Instant, later: Instant, buried: map<Id, Tombstone>, m: State)
    requires SweepState(lim, s, now, later, {}, buried, m)
    ensures m.entries.Keys == s.entries.Keys - Overdue(s, now)
  {
    NoneLeft(s, now);
  }

  lemma NoneLeft(s: State, now: Instant)
    ensures Visited(s, now, {}) == Overdue(s, now)
  {}
}
