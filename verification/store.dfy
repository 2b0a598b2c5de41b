/** The store itself: mutable entries, tombstones and ciphertext arrays behind one lock. */
module Store {
  import opened Gf256
  import opened StoreLaws
  import opened StoreSpec
  import opened StoreSweep
  import opened Wrappers

  /** The injected time source; successive readings never go back. */
  class Clock {
    var time: Instant

    constructor (start: Instant)
      ensures time == start
    {
      time := start;
    }

    method Now() returns (t: Instant)
      modifies this
      ensures old(time) <= t == time
    {
      var elapsed: int := *;
      if elapsed > 0 { time := time + elapsed; }
      t := time;
    }
  }

  /** What the server holds for one secret; the ciphertext is a slice, shared by whoever copies the struct. */
  datatype Sealed = Sealed(lookupID: Id, ciphertext: array<byte>, salt: seq<byte>, nonce: seq<byte>)

  class Entry {
    const sealed: Sealed
    const createdAt: Instant
    const expiresAt: Instant
    const readsTotal: int
    var readsRemaining: int

    constructor (sealed: Sealed, createdAt: Instant, expiresAt: Instant, readsRemaining: int, readsTotal: int)
      ensures this.sealed == sealed && this.createdAt == createdAt && this.expiresAt == expiresAt
      ensures this.readsRemaining == readsRemaining && this.readsTotal == readsTotal
    {
      this.sealed, this.createdAt, this.expiresAt := sealed, createdAt, expiresAt;
      this.readsRemaining, this.readsTotal := readsRemaining, readsTotal;
    }

    ghost function Value(): Secret
      reads this, sealed.ciphertext
    {
      Secret(sealed.ciphertext[..], sealed.salt, sealed.nonce, createdAt, expiresAt, readsRemaining, readsTotal)
    }
  }

  method Wipe(b: array<byte>)
    modifies b
    ensures Zeroed(b)
  {
    for i := 0 to b.Length
      invariant forall j :: 0 <= j < i ==> b[j] == 0
    {
      b[i] := 0;
    }
  }

  ghost predicate Zeroed(b: array<byte>)
    reads b
  {
    forall i :: 0 <= i < b.Length ==> b[i] == 0
  }

  datatype GoneError = GoneError(reason: Reason, at: Instant)

  class Store {
    var entries: map<Id, Entry>
    var tombs: map<Id, Tombstone>
    const limits: Limits
    const clock: Clock

    /** The entries the store holds. */
    ghost var held: set<Entry>
    /** Their ciphertext arrays, each with the ID it belongs to. */
    ghost var owner: map<array<byte>, Id>
    /** The values behind the entries and tombstones. */
    ghost var state: State
    /** Every step so far, and the states around the steps. */
    ghost var events: seq<Event>
    ghost var states: seq<State>

    /** Every entry is filed under its own ID, has an array of its own, and `state` shows its value. */
    ghost predicate Consistent()
      reads `entries, `tombs, `held, `owner, `state, held, owner.Keys
    {
      && limits == limits.WithDefaults()
      && state.tombs == tombs && state.entries.Keys == entries.Keys
      && forall id :: id in entries ==>
           && entries[id] in held && entries[id].sealed.lookupID == id
           && entries[id].sealed.ciphertext in owner && owner[entries[id].sealed.ciphertext] == id
           && state.entries[id] == entries[id].Value()
    }

    /** The recorded steps are a run that ends in the present state. */
    ghost predicate Recorded()
      reads this, clock
    {
      && Run(limits, events, states)
      && states[|states| - 1] == state
      && (events != [] ==> events[|events| - 1].End() <= clock.time)
    }

    ghost predicate Valid()
      reads this, clock, held, owner.Keys
    {
      Consistent() && Recorded()
    }

    constructor (limits: Limits, clock: Clock)
      ensures Valid() && held == {} && owner == map[] && this.limits == limits.WithDefaults() && this.clock == clock
      ensures state == EMPTY && events == []
    {
      entries, tombs := map[], map[];
      this.limits, this.clock := limits.WithDefaults(), clock;
      held, owner, state, events, states := {}, map[], EMPTY, [], [EMPTY];
    }

    /** Records the step that led from the last recorded state to the present one. */
    ghost method Record(e: Event)
      requires Consistent() && Run(limits, events, states)
      requires Step(limits, states[|states| - 1], e, state) && e.now <= e.End() <= clock.time
      requires events != [] ==> events[|events| - 1].End() <= e.now
      modifies this`events, this`states
      ensures Valid() && events == old(events) + [e] && states == old(states) + [state]
    {
      hide Run, Step, Consistent;
      RunExtends(limits, events, states, e, state);
      events, states := events + [e], states + [state];
    }

    /** The entry goes into the map, over any entry the ID may already have. */
    method Insert(e: Entry)
      requires Consistent() && e !in held && e.sealed.ciphertext !in owner
      modifies `entries, `held, `owner, `state
      ensures Consistent()
      ensures entries == old(entries)[e.sealed.lookupID := e] && held == old(held) + {e}
      ensures owner == old(owner)[e.sealed.ciphertext := e.sealed.lookupID]
      ensures state == State(old(state).entries[e.sealed.lookupID := e.Value()], old(state).tombs)
    {
      var id := e.sealed.lookupID;
      ghost var secret := e.Value();
      entries := entries[id := e];
      held, owner := held + {e}, owner[e.sealed.ciphertext := id];
      state := State(state.entries[id := secret], state.tombs);
    }

    method Put(sealed: Sealed, ttl: int, readCount: int) returns (r: Option<Entry>)
      requires Valid() && sealed.ciphertext !in owner
      modifies this, clock
      ensures Valid() && old(clock.time) <= clock.time
      ensures r.None? <==> |old(entries)| >= limits.maxSecrets
      ensures states == old(states) + [state]
      ensures r.None? ==> state == old(state) && entries == old(entries) && held == old(held) && owner == old(owner)
                          && events == old(events) + [Refused(clock.time)]
      ensures r.Some? ==>
        && fresh(r.value) && r.value.sealed == sealed
        && entries == old(entries)[sealed.lookupID := r.value] && tombs == old(tombs)
        && held == old(held) + {r.value} && owner == old(owner)[sealed.ciphertext := sealed.lookupID]
        && r.value.Value() == Secret(sealed.ciphertext[..], sealed.salt, sealed.nonce,
                                     clock.time, clock.time + ttl, readCount, readCount)
        && events == old(events) + [Event.Put(sealed.lookupID, r.value.Value(), clock.time)]
    {
      hide Run, Step, Consistent;
      SameSize();
      if |entries| >= limits.maxSecrets {
        RefusedIsStep(limits, state, clock.time);
        Record(Refused(clock.time));
        return None;
      }
      var e := Deposit(sealed, ttl, readCount);
      PutIsStep(limits, old(state), sealed.lookupID, e.Value(), clock.time);
      Record(Event.Put(sealed.lookupID, e.Value(), clock.time));
      return Some(e);
    }

    lemma SameSize()
      requires Consistent()
      ensures |entries| == |state.entries|
    {
      assert |entries| == |entries.Keys| && |state.entries| == |state.entries.Keys|;
    }

    /** Stamps a new entry with the present time and files it. */
    method Deposit(sealed: Sealed, ttl: int, readCount: int) returns (e: Entry)
      requires Consistent() && sealed.ciphertext !in owner
      modifies `entries, `held, `owner, `state, clock
      ensures Consistent() && old(clock.time) <= clock.time
      ensures fresh(e) && e.sealed == sealed && e.createdAt == clock.time && e.expiresAt == clock.time + ttl
      ensures e.readsRemaining == e.readsTotal == readCount
      ensures entries == old(entries)[sealed.lookupID := e] && held == old(held) + {e}
      ensures owner == old(owner)[sealed.ciphertext := sealed.lookupID]
      ensures state == State(old(state).entries[sealed.lookupID := e.Value()], old(state).tombs)
    {
      hide Consistent;
      var now := clock.Now();
      e := new Entry(sealed, now, now + ttl, readCount, readCount);
      Insert(e);
    }

    lemma KeysMatch()
      requires Consistent()
      ensures state.entries.Keys == entries.Keys && state.tombs == tombs
    {}

    lemma EntryMatches(id: Id)
      requires Consistent()
      ensures id in entries ==>
        && id in state.entries && state.entries[id].expiresAt == entries[id].expiresAt
        && entries[id] in held && entries[id].sealed.ciphertext in owner
    {}

    lemma AllOwned()
      requires Consistent()
      ensures forall id :: id in entries ==> entries[id].sealed.ciphertext in owner
    {}

    lemma ContentMatches(id: Id)
      requires Consistent()
      ensures id in entries ==> id in state.entries && state.entries[id] == entries[id].Value()
    {}

    /** The array behind an ID, if it holds one. */
    ghost function BufferOf(id: Id): set<array<byte>>
      reads `entries
    {
      if id in entries then {entries[id].sealed.ciphertext} else {}
    }

    ghost function EntryOf(id: Id): set<Entry>
      reads `entries
    {
      if id in entries then {entries[id]} else {}
    }

    /** Records a tombstone unless the cap is reached, with a floor of one day. */
    method TombLocked(lookupID: Id, reason: Reason, originalExpiry: Instant)
      requires Consistent()
      modifies `tombs, `state, clock
      ensures Consistent() && old(clock.time) <= clock.time
      ensures state == State(old(state).entries,
                             Bury(limits, old(state).tombs, lookupID, reason, originalExpiry, clock.time))
    {
      if |tombs| >= limits.maxTombstones { return; }
      var now := clock.Now();
      var expires := originalExpiry;
      var min := now + DAY;
      if expires < min { expires := min; }
      var at: Instant;
      if reason == Expired { at := originalExpiry; } else { at := now; }
      tombs := tombs[lookupID := Tombstone(reason, at, expires)];
      state := State(state.entries, tombs);
    }

    /** The three statements that end an entry: delete it, bury it, wipe its ciphertext. */
    method Evict(lookupID: Id, reason: Reason)
      requires Consistent() && lookupID in entries
      modifies `entries, `tombs, `held, `owner, `state, clock, entries[lookupID].sealed.ciphertext
      ensures Consistent() && old(clock.time) <= clock.time
      ensures entries == old(entries) - {lookupID} && held == old(held) - {old(entries[lookupID])}
      ensures owner == old(owner) - old(BufferOf(lookupID))
      ensures state == Remove(limits, old(state), lookupID, reason, clock.time)
      ensures Zeroed(old(entries[lookupID]).sealed.ciphertext)
    {
      var e := entries[lookupID];
      DeleteAndBury(lookupID, reason);
      hide Consistent, Remove, Zeroed;
      Wipe(e.sealed.ciphertext);
    }

    method DeleteAndBury(lookupID: Id, reason: Reason)
      requires Consistent() && lookupID in entries
      modifies `entries, `tombs, `held, `owner, `state, clock
      ensures Consistent() && old(clock.time) <= clock.time
      ensures entries == old(entries) - {lookupID} && held == old(held) - {old(entries[lookupID])}
      ensures owner == old(owner) - old(BufferOf(lookupID))
      ensures lookupID in old(state).entries && state == Remove(limits, old(state), lookupID, reason, clock.time)
    {
      hide Bury;
      var e := entries[lookupID];
      assert lookupID in state.entries && state.entries[lookupID].expiresAt == e.expiresAt;
      hide Consistent;
      Forget(lookupID);
      TombLocked(lookupID, reason, e.expiresAt);
    }

    /** Deletes the ID from the map. */
    method Forget(lookupID: Id)
      requires Consistent() && lookupID in entries
      modifies `entries, `held, `owner, `state
      ensures Consistent()
      ensures entries == old(entries) - {lookupID} && held == old(held) - {old(entries[lookupID])}
              && owner == old(owner) - old(BufferOf(lookupID))
      ensures state == State(old(state).entries - {lookupID}, old(state).tombs)
    {
      held, owner := held - {entries[lookupID]}, owner - {entries[lookupID].sealed.ciphertext};
      entries := entries - {lookupID};
      state := State(state.entries - {lookupID}, state.tombs);
    }

    /** Resolves an ID to its live entry or to the evidence of its end, with lazy expiry. */
    method LiveLocked(lookupID: Id) returns (e: Entry?, gone: Option<GoneError>, ghost now: Instant)
      requires Consistent()
      modifies `entries, `tombs, `held, `owner, `state, clock, BufferOf(lookupID)
      ensures Consistent() && old(clock.time) <= now <= clock.time
      ensures state == Settle(limits, old(state), lookupID, now, clock.time)
      ensures match Lookup(state, lookupID)
              case Found(_) => e != null && lookupID in entries && e == entries[lookupID] && gone == None
              case Gone(reason, at) => e == null && gone == Some(GoneError(reason, at))
              case Unknown => e == null && gone == None
      ensures e != null ==> now < e.expiresAt
      ensures e == null ==> lookupID !in old(entries) || old(entries[lookupID].expiresAt) <= now
      ensures e == null && lookupID in tombs ==> now < tombs[lookupID].until
      ensures Leaves(lookupID, old(entries), entries, old(owner), owner) && held <= old(held)
      ensures lookupID in old(entries) ==>
                if lookupID in entries
                then entries[lookupID].sealed.ciphertext[..] == old(entries[lookupID].sealed.ciphertext[..])
                else Zeroed(old(entries[lookupID]).sealed.ciphertext)
    {
      hide Consistent, Bury, Zeroed;
      KeysMatch();
      EntryMatches(lookupID);
      var t := clock.Now();
      now := t;
      if lookupID in entries {
        var live := entries[lookupID];
        if t < live.expiresAt { return live, None, now; }
        Evict(lookupID, Expired);
      }
      e := null;
      KeysMatch();
      gone := FindEvidence(lookupID, t);
    }

    /** The second half of a lookup: report a standing tombstone, drop an outlived one. */
    method FindEvidence(lookupID: Id, t: Instant) returns (gone: Option<GoneError>)
      requires Consistent() && lookupID !in entries
      modifies `tombs, `state
      ensures Consistent()
      ensures state == if lookupID in old(state).tombs && t >= old(state).tombs[lookupID].until
                       then State(old(state).entries, old(state).tombs - {lookupID}) else old(state)
      ensures gone == if lookupID in state.tombs
                      then Some(GoneError(state.tombs[lookupID].reason, state.tombs[lookupID].at)) else None
      ensures lookupID in tombs ==> t < tombs[lookupID].until
    {
      gone := None;
      if lookupID in tombs {
        var tomb := tombs[lookupID];
        if t < tomb.until {
          gone := Some(GoneError(tomb.reason, tomb.at));
        } else {
          tombs := tombs - {lookupID};
          state := State(state.entries, tombs);
        }
      }
    }

    /** Takes one read off an entry in place. */
    method Decrement(lookupID: Id)
      requires Consistent() && lookupID in entries
      modifies EntryOf(lookupID)`readsRemaining, `state
      ensures Consistent() && lookupID in old(state).entries
      ensures entries[lookupID].readsRemaining == old(entries[lookupID].readsRemaining) - 1
      ensures state == State(old(state).entries[lookupID := entries[lookupID].Value()], old(state).tombs)
      ensures entries[lookupID].Value()
              == old(state).entries[lookupID].(remaining := old(state).entries[lookupID].remaining - 1)
    {
      var e := entries[lookupID];
      e.readsRemaining := e.readsRemaining - 1;
      state := State(state.entries[lookupID := e.Value()], state.tombs);
    }

    /** Spends one read of a live entry. The last one clones the ciphertext, then wipes the store's own. */
    method SpendLocked(lookupID: Id, e: Entry) returns (cp: Entry)
      requires Consistent() && lookupID in entries && e == entries[lookupID]
      modifies `entries, `tombs, `held, `owner, `state, clock, e`readsRemaining, e.sealed.ciphertext
      ensures Consistent() && old(clock.time) <= clock.time && lookupID in old(state).entries
      ensures state == Spend(limits, old(state), lookupID, clock.time)
      ensures Leaves(lookupID, old(entries), entries, old(owner), owner) && held <= old(held)
      ensures fresh(cp) && cp.sealed == e.sealed.(ciphertext := cp.sealed.ciphertext)
      ensures cp.Value() == old(state).entries[lookupID].(remaining := old(state).entries[lookupID].remaining - 1)
      ensures if cp.readsRemaining <= 0
              then fresh(cp.sealed.ciphertext) && lookupID !in entries && Zeroed(e.sealed.ciphertext)
              else cp.sealed.ciphertext == e.sealed.ciphertext && lookupID in entries
    {
      hide Consistent, Zeroed, Spend, Remove;
      KeysMatch();
      Decrement(lookupID);
      SpendLast(limits, old(state), lookupID, e.Value());
      if e.readsRemaining <= 0 {
        cp := Burn(lookupID, e);
      } else {
        cp := new Entry(e.sealed, e.createdAt, e.expiresAt, e.readsRemaining, e.readsTotal);
      }
    }

    /** The last read: a copy with a clone of the ciphertext, then the end of the entry. */
    method Burn(lookupID: Id, e: Entry) returns (cp: Entry)
      requires Consistent() && lookupID in entries && e == entries[lookupID]
      modifies `entries, `tombs, `held, `owner, `state, clock, e.sealed.ciphertext
      ensures Consistent() && old(clock.time) <= clock.time
      ensures lookupID in old(state).entries && state == Remove(limits, old(state), lookupID, Consumed, clock.time)
      ensures Leaves(lookupID, old(entries), entries, old(owner), owner) && held <= old(held) && lookupID !in entries
      ensures fresh(cp) && fresh(cp.sealed.ciphertext) && cp.sealed == e.sealed.(ciphertext := cp.sealed.ciphertext)
      ensures cp.Value() == old(e.Value()) && Zeroed(e.sealed.ciphertext)
    {
      hide Consistent, Zeroed, Remove;
      KeysMatch();
      var clone := Clone(e.sealed.ciphertext);
      cp := new Entry(e.sealed.(ciphertext := clone), e.createdAt, e.expiresAt, e.readsRemaining, e.readsTotal);
      Evict(lookupID, Consumed);
    }

    /** Hands out one read, from the lookup to the burn in one step. */
    method Take(lookupID: Id) returns (r: Entry?, gone: Option<GoneError>, ghost now: Instant)
      requires Valid()
      modifies this, clock, EntryOf(lookupID), BufferOf(lookupID)
      ensures Valid() && old(clock.time) <= now <= clock.time
      ensures Leaves(lookupID, old(entries), entries, old(owner), owner) && held <= old(held)
      ensures lookupID in old(entries) ==>
                if lookupID in entries
                then entries[lookupID].sealed.ciphertext[..] == old(entries[lookupID].sealed.ciphertext[..])
                else Zeroed(old(entries[lookupID]).sealed.ciphertext)
      ensures forall a :: a in old(owner) ==> if a in owner then a[..] == old(a[..]) else Zeroed(a)
      ensures events == old(events) + [Look(Op.Take, lookupID, now, clock.time, AnswerOf(r, gone))]
              && states == old(states) + [state]
      ensures r != null ==>
        && fresh(r) && gone == None && lookupID in old(entries)
        && r.sealed == old(entries[lookupID]).sealed.(ciphertext := r.sealed.ciphertext)
        && r.sealed.ciphertext[..] == old(entries[lookupID].sealed.ciphertext[..])
        && if r.readsRemaining <= 0 then fresh(r.sealed.ciphertext) && lookupID !in entries
           else r.sealed.ciphertext == old(entries[lookupID]).sealed.ciphertext && lookupID in entries
    {
      hide Run, Step, Consistent, Zeroed, Settle, Spend;
      ContentMatches(lookupID);
      var e;
      e, gone, now := LiveLocked(lookupID);
      if e == null {
        MissIsStep(limits, old(state), Op.Take, lookupID, now, clock.time);
        Record(Look(Op.Take, lookupID, now, clock.time, AnswerOf(null, gone)));
        return null, gone, now;
      }
      ghost var t := state;
      SettledWhenFound(limits, old(state), lookupID, now, clock.time);
      assert t.entries[lookupID].ciphertext == old(entries[lookupID].Value()).ciphertext;
      r := SpendLocked(lookupID, e);
      assert r.Value().ciphertext == r.sealed.ciphertext[..];
      TakeIsStep(limits, old(state), t, lookupID, now, clock.time);
      Record(Look(Op.Take, lookupID, now, clock.time, AnswerOf(r, None)));
    }

    /** A copy of a live entry that leaves its reads alone. */
    method Peek(lookupID: Id) returns (r: Entry?, gone: Option<GoneError>, ghost now: Instant)
      requires Valid()
      modifies this, clock, BufferOf(lookupID)
      ensures Valid() && old(clock.time) <= now <= clock.time
      ensures Leaves(lookupID, old(entries), entries, old(owner), owner) && held <= old(held)
      ensures lookupID in old(entries) ==>
                if lookupID in entries
                then entries[lookupID].sealed.ciphertext[..] == old(entries[lookupID].sealed.ciphertext[..])
                else Zeroed(old(entries[lookupID]).sealed.ciphertext)
      ensures forall a :: a in old(owner) ==> if a in owner then a[..] == old(a[..]) else Zeroed(a)
      ensures events == old(events) + [Look(Op.Peek, lookupID, now, clock.time, AnswerOf(r, gone))]
              && states == old(states) + [state]
      ensures r != null ==> fresh(r) && gone == None && entries == old(entries) && state == old(state)
    {
      hide Run, Step, Consistent, Zeroed, Settle;
      var e;
      e, gone, now := LiveLocked(lookupID);
      if e == null {
        MissIsStep(limits, old(state), Op.Peek, lookupID, now, clock.time);
        Record(Look(Op.Peek, lookupID, now, clock.time, AnswerOf(null, gone)));
        return null, gone, now;
      }
      ContentMatches(lookupID);
      SettledWhenFound(limits, old(state), lookupID, now, clock.time);
      r := new Entry(e.sealed, e.createdAt, e.expiresAt, e.readsRemaining, e.readsTotal);
      PeekIsStep(limits, old(state), lookupID, now, clock.time);
      Record(Look(Op.Peek, lookupID, now, clock.time, AnswerOf(r, None)));
    }

    /** Ends a live entry at the caller's wish; `answer` is the value it had. */
    method Revoke(lookupID: Id) returns (revoked: bool, gone: Option<GoneError>, ghost now: Instant,
                                         ghost answer: Answer)
      requires Valid()
      modifies this, clock, BufferOf(lookupID)
      ensures Valid() && old(clock.time) <= now <= clock.time
      ensures Leaves(lookupID, old(entries), entries, old(owner), owner) && held <= old(held)
      ensures lookupID !in entries
      ensures forall a :: a in old(owner) ==> if a in owner then a[..] == old(a[..]) else Zeroed(a)
      ensures lookupID in old(entries) ==> Zeroed(old(entries[lookupID]).sealed.ciphertext)
      ensures events == old(events) + [Look(Op.Revoke, lookupID, now, clock.time, answer)]
              && states == old(states) + [state]
      ensures if revoked
              then lookupID in old(entries) && answer == Found(old(entries[lookupID].Value())) && gone == None
              else answer == AnswerOf(null, gone)
    {
      hide Run, Step, Consistent, Zeroed, Settle, Remove;
      ContentMatches(lookupID);
      var e;
      e, gone, now := LiveLocked(lookupID);
      KeysMatch();
      if e == null {
        answer := AnswerOf(null, gone);
        MissIsStep(limits, old(state), Op.Revoke, lookupID, now, clock.time);
        Record(Look(Op.Revoke, lookupID, now, clock.time, answer));
        return false, gone, now, answer;
      }
      SettledWhenFound(limits, old(state), lookupID, now, clock.time);
      answer := Found(state.entries[lookupID]);
      Evict(lookupID, Revoked);
      RevokeIsStep(limits, old(state), lookupID, now, clock.time);
      Record(Look(Op.Revoke, lookupID, now, clock.time, answer));
      return true, None, now, answer;
    }

    /** The janitor's sweep: overdue entries first, in any order, then outlived tombstones, in any order. */
    method Purge() returns (ghost now: Instant, ghost buried: map<Id, Tombstone>)
      requires Valid()
      modifies this, clock, owner.Keys
      ensures Valid() && old(clock.time) <= now <= clock.time
      ensures events == old(events) + [Event.Purge(now, clock.time, buried)] && states == old(states) + [state]
      ensures entries.Keys == old(entries).Keys - Overdue(old(state), now) && Kept(old(entries), entries)
      ensures (forall id :: id in tombs ==> now < tombs[id].until)
              && forall id :: id in entries ==> now < entries[id].expiresAt
      ensures held <= old(held) && owner.Keys <= old(owner.Keys) && Disowned(old(entries), entries, owner)
      ensures forall a :: a in old(owner) ==> if a in owner then a[..] == old(a[..]) else Zeroed(a)
      ensures forall id :: id in old(entries) && id !in entries ==> Zeroed(old(entries[id]).sealed.ciphertext)
    {
      hide Run, Step, Consistent, Zeroed, Kept, Disowned, Overdue;
      ghost var before, owned := entries, owner;
      AllOwned();
      var t := clock.Now();
      now := t;
      buried := Sweep(t);
      AllDisowned(before, entries, owned, owner);
      PurgeClears(limits, old(state), Event.Purge(now, clock.time, buried), state);
      MapsCleared(now);
      Record(Event.Purge(now, clock.time, buried));
    }

    /** What holds of the values behind the maps holds of the maps. */
    lemma MapsCleared(now: Instant)
      requires Consistent()
      requires forall id :: id in state.tombs ==> now < state.tombs[id].until
      requires forall id :: id in state.entries ==> now < state.entries[id].expiresAt
      ensures forall id :: id in tombs ==> now < tombs[id].until
      ensures forall id :: id in entries ==> now < entries[id].expiresAt
    {}

    method Sweep(t: Instant) returns (ghost buried: map<Id, Tombstone>)
      requires Consistent() && t <= clock.time
      modifies `entries, `tombs, `held, `owner, `state, clock, owner.Keys
      ensures Consistent() && old(clock.time) <= clock.time
      ensures Step(limits, old(state), Event.Purge(t, clock.time, buried), state)
      ensures entries.Keys == old(entries).Keys - Overdue(old(state), t) && Kept(old(entries), entries)
      ensures held <= old(held) && owner.Keys <= old(owner.Keys) && Disowned(old(entries), entries, owner)
      ensures forall a :: a in old(owner) ==> if a in owner then a[..] == old(a[..]) else Zeroed(a)
    {
      hide Run, Step, Consistent, SweepState, Zeroed, Kept, Disowned, Standing, Overdue;
      KeysMatch();
      buried := SweepEntries(t);
      ghost var middle := state;
      KeysMatch();
      SweptKeys(limits, old(state), t, clock.time, buried, middle);
      SweepTombs(t);
      PurgeIsStep(limits, old(state), t, clock.time, buried, middle, state);
    }

    lemma IntactMeans(bytes: map<array<byte>, seq<byte>>)
      requires Intact(bytes, owner)
      ensures forall a :: a in bytes ==> if a in owner then a[..] == bytes[a] else Zeroed(a)
    {}

    method SweepEntries(t: Instant) returns (ghost buried: map<Id, Tombstone>)
      requires Consistent() && t <= clock.time
      modifies `entries, `tombs, `held, `owner, `state, clock, owner.Keys
      ensures Consistent() && old(clock.time) <= clock.time
      ensures SweepState(limits, old(state), t, clock.time, {}, buried, state)
      ensures Kept(old(entries), entries)
      ensures held <= old(held) && owner.Keys <= old(owner.Keys) && Disowned(old(entries), entries, owner)
      ensures forall a :: a in old(owner) ==> if a in owner then a[..] == old(a[..]) else Zeroed(a)
    {
      hide Consistent, SweepState, Visited, Zeroed;
      KeysMatch();
      ghost var bytes := map a | a in owner :: a[..];
      assert Intact(bytes, owner);
      buried := map[];
      assert Kept(entries, entries) && Disowned(entries, entries, owner);
      hide Kept, Disowned, Intact;
      var rest := entries.Keys;
      SweepStarts(limits, state, t, clock.time);
      while rest != {}
        invariant Consistent() && old(clock.time) <= clock.time
        invariant rest <= entries.Keys
        invariant SweepState(limits, old(state), t, clock.time, rest, buried, state)
        invariant Kept(old(entries), entries) && Disowned(old(entries), entries, owner)
        invariant held <= old(held) && owner.Keys <= old(owner.Keys)
        invariant Intact(bytes, owner)
        decreases rest
      {
        var id :| id in rest;
        EntryMatches(id);
        buried := SweepOne(t, id, old(state), old(entries), bytes, rest, buried);
        rest := rest - {id};
      }
      IntactMeans(bytes);
    }

    /** One turn of the sweep; `held0` are the entries at its start. */
    method SweepOne(t: Instant, id: Id, ghost s: State, ghost held0: map<Id, Entry>,
                    ghost bytes: map<array<byte>, seq<byte>>, ghost rest: set<Id>,
                    ghost buried: map<Id, Tombstone>)
      returns (ghost buried': map<Id, Tombstone>)
      requires Consistent() && t <= clock.time && id in rest && id in entries && id in s.entries
      requires SweepState(limits, s, t, clock.time, rest, buried, state)
      requires Kept(held0, entries) && Disowned(held0, entries, owner) && Intact(bytes, owner)
      modifies `entries, `tombs, `held, `owner, `state, clock, entries[id].sealed.ciphertext
      ensures Consistent() && old(clock.time) <= clock.time
      ensures SweepState(limits, s, t, clock.time, rest - {id}, buried', state)
      ensures entries.Keys >= old(entries).Keys - {id}
      ensures Kept(held0, entries) && Disowned(held0, entries, owner)
      ensures held <= old(held) && owner.Keys <= old(owner.Keys)
      ensures Intact(bytes, owner)
    {
      hide Consistent, SweepState, Remove, Zeroed;
      EntryMatches(id);
      KeysMatch();
      SweepEntry(limits, s, t, clock.time, rest, buried, state, id);
      if t >= entries[id].expiresAt {
        Evict(id, Expired);
        buried' := SweepRemoved(limits, s, t, old(clock.time), clock.time, rest, buried, old(state), id);
      } else {
        buried' := buried;
        SweepSkipped(limits, s, t, clock.time, rest, buried, state, id);
      }
    }

    method SweepTombs(t: Instant)
      requires Consistent()
      modifies `tombs, `state
      ensures Consistent()
      ensures state == State(old(state).entries, Standing(old(state).tombs, t))
      ensures forall id :: id in tombs <==> id in old(tombs) && t < old(tombs)[id].until
      ensures forall id :: id in tombs ==> tombs[id] == old(tombs)[id]
    {
      var rest := tombs.Keys;
      while rest != {}
        invariant rest <= tombs.Keys && state == old(state)
        invariant tombs == map id | id in old(tombs) && (id in rest || t < old(tombs)[id].until) :: old(tombs)[id]
        decreases rest
      {
        var id :| id in rest;
        if t >= tombs[id].until { tombs := tombs - {id}; }
        rest := rest - {id};
      }
      state := State(state.entries, tombs);
    }

    /** Both counts, sampled together. */
    method Stats() returns (live: nat, tombstones: nat)
      requires Valid()
      ensures live == |state.entries| && tombstones == |state.tombs|
    {
      KeysMatch();
      assert |entries| == |entries.Keys| && |state.entries| == |state.entries.Keys|;
      return |entries|, |tombs|;
    }
  }

  /** Either nothing left the store, or just this ID did, and its array is no longer the store's. */
  ghost predicate Leaves(id: Id, before: map<Id, Entry>, after: map<Id, Entry>,
                         owner: map<array<byte>, Id>, owner': map<array<byte>, Id>)
  {
    if id in before && id !in after then
      after == before - {id} && owner' == owner - {before[id].sealed.ciphertext}
    else after == before && owner' == owner
  }

  /** What is still held is held as before. */
  ghost predicate Kept(before: map<Id, Entry>, after: map<Id, Entry>) {
    after.Keys <= before.Keys && forall id :: id in after ==> after[id] == before[id]
  }

  /** Of the arrays whose bytes were noted, those still the store's hold them, and those that left it are zero. */
  ghost predicate Intact(bytes: map<array<byte>, seq<byte>>, owner: map<array<byte>, Id>)
    reads bytes.Keys
  {
    forall a :: a in bytes ==> if a in owner then a[..] == bytes[a] else Zeroed(a)
  }

  /** The arrays of all entries that left are no longer the store's. */
  ghost predicate Disowned(before: map<Id, Entry>, after: map<Id, Entry>, owner: map<array<byte>, Id>) {
    forall id :: id in before && id !in after ==> before[id].sealed.ciphertext !in owner
  }

  lemma AllDisowned(before: map<Id, Entry>, after: map<Id, Entry>,
                    owned: map<array<byte>, Id>, owner: map<array<byte>, Id>)
    requires Disowned(before, after, owner) && forall id :: id in before ==> before[id].sealed.ciphertext in owned
    ensures forall id :: id in before && id !in after ==>
              before[id].sealed.ciphertext in owned && before[id].sealed.ciphertext !in owner
  {}

  method Clone(b: array<byte>) returns (c: array<byte>)
    ensures fresh(c) && c[..] == b[..]
  {
    c := new byte[b.Length](i requires 0 <= i < b.Length reads b => b[i]);
  }

  ghost function AnswerOf(r: Entry?, gone: Option<GoneError>): Answer
    reads if r == null then {} else {r}
    reads if r == null then {} else {r.sealed.ciphertext}
  {
    if r != null then Found(r.Value())
    else match gone
      case Some(g) => StoreSpec.Gone(g.reason, g.at)
      case None => Unknown
  }

  /** A lookup that finds nothing is a step that only settles. */
  lemma MissIsStep(lim: Limits, s: State, op: Op, id: Id, now: Instant, later: Instant)
    requires !Lookup(Settle(lim, s, id, now, later), id).Found?
    ensures var t := Settle(lim, s, id, now, later);
            Step(lim, s, Look(op, id, now, later, Lookup(t, id)), t)
  {
    hide Settle;
  }

  lemma SettledWhenFound(lim: Limits, s: State, id: Id, now: Instant, later: Instant)
    requires id in Settle(lim, s, id, now, later).entries
    ensures forall later' :: Settle(lim, s, id, now, later') == s
  {
    hide Bury;
  }

  /** The decrement before the last read's removal leaves no trace. */
  lemma SpendLast(lim: Limits, s: State, id: Id, e: Secret)
    requires id in s.entries && e == s.entries[id].(remaining := s.entries[id].remaining - 1)
    ensures forall now ::
              Spend(lim, s, id, now)
              == if e.remaining <= 0 then Remove(lim, State(s.entries[id := e], s.tombs), id, Consumed, now)
                 else State(s.entries[id := e], s.tombs)
  {
    hide Bury;
    assert s.entries[id := e] - {id} == s.entries - {id};
  }

  lemma PeekIsStep(lim: Limits, s: State, id: Id, now: Instant, later: Instant)
    requires id in s.entries && Settle(lim, s, id, now, later) == s
    ensures Step(lim, s, Look(Op.Peek, id, now, later, Found(s.entries[id])), s)
  {
    hide Settle;
  }

  lemma RevokeIsStep(lim: Limits, s: State, id: Id, now: Instant, later: Instant)
    requires id in s.entries && Settle(lim, s, id, now, later) == s
    ensures Step(lim, s, Look(Op.Revoke, id, now, later, Found(s.entries[id])), Remove(lim, s, id, Revoked, later))
  {
    hide Settle, Remove;
  }

  lemma TakeIsStep(lim: Limits, s: State, t: State, id: Id, now: Instant, later: Instant)
    requires exists c :: t == Settle(lim, s, id, now, c)
    requires id in t.entries
    ensures var e := t.entries[id];
            Step(lim, s, Look(Op.Take, id, now, later, Found(e.(remaining := e.remaining - 1))),
                 Spend(lim, t, id, later))
  {
    var c :| t == Settle(lim, s, id, now, c);
    SettledWhenFound(lim, s, id, now, c);
    hide Settle, Spend;
  }

  lemma RefusedIsStep(lim: Limits, s: State, now: Instant)
    requires |s.entries| >= lim.maxSecrets
    ensures Step(lim, s, Refused(now), s)
  {}

  lemma PutIsStep(lim: Limits, s: State, id: Id, secret: Secret, now: Instant)
    requires |s.entries| < lim.maxSecrets && secret.createdAt == now && secret.remaining == secret.total
    ensures Step(lim, s, Event.Put(id, secret, now), State(s.entries[id := secret], s.tombs))
  {}
}
