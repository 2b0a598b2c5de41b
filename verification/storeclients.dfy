/** What a caller may rely on after its own step, whatever other callers do next. */
module StoreClients {
  import opened Gf256
  import opened Store
  import opened StoreLaws
  import opened StoreReaders
  import opened StoreSpec
  import opened Wrappers

  /** Another caller's request; a stored ciphertext is always a new array. */
  datatype Request =
    | Wrap(id: Id, ciphertext: seq<byte>, salt: seq<byte>, nonce: seq<byte>, ttl: int, count: int)
    | Lookup(op: Op, id: Id)
    | Sweep

  /** The kind of step that a request makes the store take. */
  predicate Matches(request: Request, e: Event) {
    match request
    case Wrap(id, _, _, _, _, _) => e.Refused? || (e.Put? && e.id == id)
    case Lookup(op, id) => e.Look? && e.op == op && e.id == id
    case Sweep => e.Purge?
  }

  predicate Stores(requests: seq<Request>, id: Id) {
    exists i :: 0 <= i < |requests| && requests[i].Wrap? && requests[i].id == id
  }

  /** The ID's entry is still the one it was, or has left together with its array. */
  ghost predicate Follows(id: Id, before: map<Id, Entry>, after: map<Id, Entry>, owner: map<array<byte>, Id>) {
    && (id in after ==> id in before && after[id] == before[id])
    && (id in before && id !in after ==> before[id].sealed.ciphertext !in owner)
  }

  ghost predicate Followed(requests: seq<Request>, before: map<Id, Entry>, after: map<Id, Entry>,
                           owner: map<array<byte>, Id>)
  {
    forall id :: !Stores(requests, id) ==> Follows(id, before, after, owner)
  }

  /** The history has grown by one matching event a request. */
  ghost predicate Grown(requests: seq<Request>, es: seq<Event>, es': seq<Event>, ss: seq<State>, ss': seq<State>) {
    && |es'| == |es| + |requests| && es'[..|es|] == es
    && (forall i :: 0 <= i < |requests| ==> Matches(requests[i], es'[|es| + i]))
    && |ss'| == |ss| + |requests| && ss'[..|ss|] == ss
  }

  /** Only a lookup's own entry, or for a sweep an overdue one, may have left. */
  predicate MayLeave(request: Request, now: Instant, id: Id, expiresAt: Instant) {
    match request
    case Wrap(_, _, _, _, _, _) => false
    case Lookup(_, own) => id == own
    case Sweep => expiresAt <= now
  }

  ghost predicate OthersStay(request: Request, now: Instant, before: map<Id, Entry>, after: map<Id, Entry>) {
    forall id :: id in before && id !in after ==> MayLeave(request, now, id, before[id].expiresAt)
  }

  /** Of the store's arrays, those that are still the store's keep their bytes, and those that left it are zero. */
  twostate predicate BytesKept(s: Store, arrays: set<array<byte>>)
    reads s, arrays
  {
    forall a :: a in arrays ==> if a in s.owner then a[..] == old(a[..]) else Zeroed(a)
  }

  /** What serving some requests does to the store and to its arrays. */
  twostate predicate Served(s: Store, requests: seq<Request>, arrays: set<array<byte>>)
    reads s, arrays
  {
    && BytesKept(s, arrays)
    && Grown(requests, old(s.events), s.events, old(s.states), s.states)
    && Followed(requests, old(s.entries), s.entries, s.owner)
  }

  method Serve(s: Store, request: Request)
    requires s.Valid()
    modifies s, s.clock, s.held, s.owner.Keys
    ensures s.Valid() && fresh(s.held - old(s.held)) && fresh(s.owner.Keys - old(s.owner.Keys))
    ensures Served(s, [request], old(s.owner.Keys))
    ensures |s.events| == |old(s.events)| + 1
    ensures OthersStay(request, s.events[|old(s.events)|].now, old(s.entries), s.entries)
  {
    hide Store.Valid, Served, OthersStay;
    match request
    case Wrap(id, ciphertext, salt, nonce, ttl, count) => ServeWrap(s, request);
    case Lookup(Take, id) => ServeTake(s, id);
    case Lookup(Peek, id) => ServePeek(s, id);
    case Lookup(Revoke, id) => ServeRevoke(s, id);
    case Sweep => ServeSweep(s);
  }

  lemma GrownByOne(request: Request, es: seq<Event>, e: Event, ss: seq<State>, s': State)
    requires Matches(request, e)
    ensures Grown([request], es, es + [e], ss, ss + [s'])
  {}

  lemma FollowedByOne(request: Request, before: map<Id, Entry>, after: map<Id, Entry>, owner: map<array<byte>, Id>)
    requires forall id :: (request.Wrap? ==> id != request.id) ==> Follows(id, before, after, owner)
    ensures Followed([request], before, after, owner)
  {
    assert request.Wrap? ==> [request][0].id == request.id;
    hide Follows;
  }

  method ServeWrap(s: Store, request: Request)
    requires s.Valid() && request.Wrap?
    modifies s, s.clock
    ensures s.Valid() && fresh(s.held - old(s.held)) && fresh(s.owner.Keys - old(s.owner.Keys))
    ensures Served(s, [request], old(s.owner.Keys))
    ensures |s.events| == |old(s.events)| + 1
    ensures OthersStay(request, s.events[|old(s.events)|].now, old(s.entries), s.entries)
  {
    hide Run, Store.Consistent, Store.Recorded;
    var bytes := request.ciphertext;
    var a := new byte[|bytes|](i requires 0 <= i < |bytes| => bytes[i]);
    ghost var es, ss, before := s.events, s.states, s.entries;
    var r := s.Put(Sealed(request.id, a, request.salt, request.nonce), request.ttl, request.count);
    GrownByOne(request, es, s.events[|es|], ss, s.state);
    FollowedByOne(request, before, s.entries, s.owner);
  }

  lemma EntryOwned(s: Store, id: Id)
    requires s.Valid()
    ensures id in s.entries ==> s.entries[id] in s.held && s.entries[id].sealed.ciphertext in s.owner
  {
    s.EntryMatches(id);
  }

  lemma EntriesOwned(s: Store)
    requires s.Valid()
    ensures forall id :: id in s.entries ==> s.entries[id].sealed.ciphertext in s.owner
  {
    s.AllOwned();
  }

  lemma LeavesOne(id: Id, before: map<Id, Entry>, after: map<Id, Entry>,
                  owner: map<array<byte>, Id>, owner': map<array<byte>, Id>)
    requires Leaves(id, before, after, owner, owner')
    ensures forall other :: Follows(other, before, after, owner')
    ensures id in before && id in after ==> after[id] == before[id]
    ensures forall op, now :: OthersStay(Lookup(op, id), now, before, after)
    ensures owner'.Keys == if id in before
            && id !in after then owner.Keys - {before[id].sealed.ciphertext} else owner.Keys
  {}

  method ServeTake(s: Store, id: Id)
    requires s.Valid()
    modifies s, s.clock, s.held, s.owner.Keys
    ensures s.Valid() && s.held <= old(s.held) && s.owner.Keys <= old(s.owner.Keys)
    ensures Served(s, [Lookup(Take, id)], old(s.owner.Keys))
    ensures |s.events| == |old(s.events)| + 1
    ensures OthersStay(Lookup(Take, id), s.events[|old(s.events)|].now, old(s.entries), s.entries)
  {
    EntryOwned(s, id);
    hide Store.Valid, Zeroed, Follows, Leaves, AnswerOf, Matches, Grown, Followed, OthersStay;
    ghost var es, ss, before, owned := s.events, s.states, s.entries, s.owner;
    var r, gone, now := s.Take(id);
    LeavesOne(id, before, s.entries, owned, s.owner);
    GrownByOne(Lookup(Take, id), es, s.events[|es|], ss, s.state);
    FollowedByOne(Lookup(Take, id), before, s.entries, s.owner);
  }

  method ServePeek(s: Store, id: Id)
    requires s.Valid()
    modifies s, s.clock, s.held, s.owner.Keys
    ensures s.Valid() && s.held <= old(s.held) && s.owner.Keys <= old(s.owner.Keys)
    ensures Served(s, [Lookup(Peek, id)], old(s.owner.Keys))
    ensures |s.events| == |old(s.events)| + 1
    ensures OthersStay(Lookup(Peek, id), s.events[|old(s.events)|].now, old(s.entries), s.entries)
  {
    EntryOwned(s, id);
    hide Store.Valid, Zeroed, Follows, Leaves, AnswerOf, Matches, Grown, Followed, OthersStay;
    ghost var es, ss, before, owned := s.events, s.states, s.entries, s.owner;
    var r, gone, now := s.Peek(id);
    LeavesOne(id, before, s.entries, owned, s.owner);
    GrownByOne(Lookup(Peek, id), es, s.events[|es|], ss, s.state);
    FollowedByOne(Lookup(Peek, id), before, s.entries, s.owner);
  }

  method ServeRevoke(s: Store, id: Id)
    requires s.Valid()
    modifies s, s.clock, s.held, s.owner.Keys
    ensures s.Valid() && s.held <= old(s.held) && s.owner.Keys <= old(s.owner.Keys)
    ensures Served(s, [Lookup(Revoke, id)], old(s.owner.Keys))
    ensures |s.events| == |old(s.events)| + 1
    ensures OthersStay(Lookup(Revoke, id), s.events[|old(s.events)|].now, old(s.entries), s.entries)
  {
    EntryOwned(s, id);
    hide Store.Valid, Zeroed, Follows, Leaves, AnswerOf, Matches, Grown, Followed, OthersStay;
    ghost var es, ss, before, owned := s.events, s.states, s.entries, s.owner;
    var revoked, gone, now, answer := s.Revoke(id);
    LeavesOne(id, before, s.entries, owned, s.owner);
    GrownByOne(Lookup(Revoke, id), es, s.events[|es|], ss, s.state);
    FollowedByOne(Lookup(Revoke, id), before, s.entries, s.owner);
  }

  lemma OverdueEntries(s: Store)
    requires s.Valid()
    ensures forall id, now :: id in Overdue(s.state, now) ==> id in s.entries && s.entries[id].expiresAt <= now
  {}

  method ServeSweep(s: Store)
    requires s.Valid()
    modifies s, s.clock, s.owner.Keys
    ensures s.Valid() && s.held <= old(s.held) && s.owner.Keys <= old(s.owner.Keys)
    ensures Served(s, [Sweep], old(s.owner.Keys))
    ensures |s.events| == |old(s.events)| + 1
    ensures OthersStay(Sweep, s.events[|old(s.events)|].now, old(s.entries), s.entries)
  {
    OverdueEntries(s);
    hide Run, Store.Consistent, Store.Recorded, Zeroed, Overdue;
    ghost var es, ss, before := s.events, s.states, s.entries;
    var now, buried := s.Purge();
    GrownByOne(Sweep, es, s.events[|es|], ss, s.state);
    FollowedByOne(Sweep, before, s.entries, s.owner);
  }

  lemma FollowedOn(some: seq<Request>, more: seq<Request>, first: map<Id, Entry>, before: map<Id, Entry>,
                   after: map<Id, Entry>, owner: map<array<byte>, Id>, owner': map<array<byte>, Id>)
    requires Followed(some, first, before, owner) && Followed(more, before, after, owner')
    requires forall id :: id in first && first[id].sealed.ciphertext !in owner ==>
               first[id].sealed.ciphertext !in owner'
    ensures Followed(some + more, first, after, owner')
  {
    forall id | !Stores(some + more, id)
      ensures Follows(id, first, after, owner')
    {
      assert forall i :: 0 <= i < |some| ==> (some + more)[i] == some[i];
      assert forall i :: 0 <= i < |more| ==> (some + more)[|some| + i] == more[i];
      assert Follows(id, first, before, owner) && Follows(id, before, after, owner');
    }
  }

  lemma GrownOn(some: seq<Request>, more: seq<Request>, es: seq<Event>, es': seq<Event>, es'': seq<Event>,
                ss: seq<State>, ss': seq<State>, ss'': seq<State>)
    requires Grown(some, es, es', ss, ss') && Grown(more, es', es'', ss', ss'')
    ensures Grown(some + more, es, es'', ss, ss'')
  {
    hide Matches;
    assert es''[..|es|] == es'[..|es|] && ss''[..|ss|] == ss'[..|ss|];
    var served := some + more;
    forall i | 0 <= i < |served|
      ensures Matches(served[i], es''[|es| + i])
    {
      if i < |some| {
        assert Matches(some[i], es'[|es| + i]);
      } else {
        assert Matches(more[i - |some|], es''[|es'| + (i - |some|)]);
      }
    }
  }

  lemma EventStays(requests: seq<Request>, es: seq<Event>, es': seq<Event>, ss: seq<State>, ss': seq<State>, n: nat)
    requires Grown(requests, es, es', ss, ss') && n < |es|
    ensures n < |es'| && es'[n] == es[n]
  {
    assert es'[..|es|][n] == es'[n];
  }

  lemma NoneServed(es: seq<Event>, ss: seq<State>, entries: map<Id, Entry>, owner: map<array<byte>, Id>)
    ensures Grown([], es, es, ss, ss) && Followed([], entries, entries, owner)
  {}

  /** Any requests, one after the other. */
  method ServeAll(s: Store, requests: seq<Request>)
    requires s.Valid()
    modifies s, s.clock, s.held, s.owner.Keys
    ensures s.Valid() && fresh(s.held - old(s.held)) && fresh(s.owner.Keys - old(s.owner.Keys))
    ensures Served(s, requests, old(s.owner.Keys))
    decreases |requests|
  {
    EntriesOwned(s);
    NoneServed(s.events, s.states, s.entries, s.owner);
    hide Store.Valid, Zeroed, Grown, Followed, OthersStay;
    if requests != [] {
      var n := |requests| - 1;
      ServeAll(s, requests[..n]);
      ghost var es, ss, entries, owner := s.events, s.states, s.entries, s.owner;
      Serve(s, requests[n]);
      GrownOn(requests[..n], [requests[n]], old(s.events), es, s.events, old(s.states), ss, s.states);
      FollowedOn(requests[..n], [requests[n]], old(s.entries), entries, s.entries, owner, s.owner);
      assert requests[..n] + [requests[n]] == requests;
    }
  }

  /**
   * The part of Take's contract that concerns arrays: a last read returns an array of the caller's own and
   * leaves the store's zero, any other read returns the store's.
   */
  method Read(s: Store, id: Id) returns (r: Entry?, gone: Option<GoneError>)
    requires s.Valid()
    modifies s, s.clock, s.held, s.owner.Keys
    ensures s.Valid() && s.held <= old(s.held) && s.owner.Keys <= old(s.owner.Keys)
    ensures r != null ==> fresh(r) && gone == None && id in old(s.entries)
    ensures r != null ==> r.sealed.ciphertext[..] == old(s.entries[id].sealed.ciphertext[..])
    ensures r != null ==>
      if r.readsRemaining <= 0 then
        && fresh(r.sealed.ciphertext) && Zeroed(old(s.entries[id]).sealed.ciphertext)
        && old(s.entries[id]).sealed.ciphertext !in s.owner
      else
        && id in s.entries && s.entries[id].sealed.ciphertext == r.sealed.ciphertext && r.sealed.ciphertext in s.owner
    ensures Grown([Lookup(Take, id)], old(s.events), s.events, old(s.states), s.states)
    ensures |s.events| == |old(s.events)| + 1
    ensures s.events[|old(s.events)|].Look? && s.events[|old(s.events)|].answer == AnswerOf(r, gone)
  {
    EntryOwned(s, id);
    hide Store.Valid, Zeroed;
    ghost var es, ss := s.events, s.states;
    ghost var now;
    r, gone, now := s.Take(id);
    GrownByOne(Lookup(Take, id), es, s.events[|es|], ss, s.state);
    EntryOwned(s, id);
  }

  /** What a reader has: the answer it got, and the array behind it, which holds what BytesLater says. */
  ghost predicate Reads(r: Entry?, gone: Option<GoneError>, answer: Answer, held: bool)
    reads if r == null then {} else {r}
    reads if r == null then {} else {r.sealed.ciphertext}
  {
    match answer
    case Found(secret) =>
      && r != null && gone == None && r.readsRemaining == secret.remaining
      && r.sealed.salt == secret.salt && r.sealed.nonce == secret.nonce
      && r.sealed.ciphertext[..] == BytesLater(secret, held)
    case Gone(reason, at) => r == null && gone == Some(GoneError(reason, at))
    case Unknown => r == null && gone == None
  }

  /**
   * A read, and then any further requests of anybody. The reader is left with the bytes as stored if the
   * read was the last or the store still holds them, and with zeros otherwise.
   */
  method ReadThenServe(s: Store, id: Id, requests: seq<Request>)
    returns (r: Entry?, gone: Option<GoneError>, ghost answer: Answer, ghost held: bool)
    requires s.Valid()
    modifies s, s.clock, s.held, s.owner.Keys
    ensures s.Valid() && fresh(s.held - old(s.held)) && fresh(s.owner.Keys - old(s.owner.Keys))
    ensures Grown([Lookup(Take, id)] + requests, old(s.events), s.events, old(s.states), s.states)
    ensures |s.events| > |old(s.events)|
    ensures s.events[|old(s.events)|].Look? && s.events[|old(s.events)|].answer == answer
    ensures Reads(r, gone, answer, held)
    ensures r != null ==> fresh(r) && r !in s.held
    ensures r != null ==> id in old(s.entries) && answer.secret.ciphertext == old(s.entries[id].sealed.ciphertext[..])
    ensures r != null && r.readsRemaining > 0 && !Stores(requests, id) ==>
      (held <==> id in s.entries) && (held ==> s.entries[id].sealed.ciphertext == r.sealed.ciphertext)
  {
    hide Store.Valid, Zeroed, Matches, Grown, Stores, Followed;
    r, gone := Read(s, id);
    answer := AnswerOf(r, gone);
    assert Reads(r, gone, answer, true);
    ghost var es, ss, entries := s.events, s.states, s.entries;
    ServeAll(s, requests);
    EventStays(requests, es, s.events, ss, s.states, |old(s.events)|);
    GrownOn([Lookup(Take, id)], requests, old(s.events), es, s.events, old(s.states), ss, s.states);
    held := r != null && r.sealed.ciphertext in s.owner;
    if r != null && r.readsRemaining > 0 {
      ZeroedBytes(r.sealed.ciphertext);
      if !Stores(requests, id) { StillHeld(s, requests, entries, id); }
    }
  }

  lemma ZeroedBytes(b: array<byte>)
    ensures Zeroed(b) ==> b[..] == Zeros(b.Length)
  {}

  lemma StillHeld(s: Store, requests: seq<Request>, before: map<Id, Entry>, id: Id)
    requires s.Valid() && id in before && Followed(requests, before, s.entries, s.owner) && !Stores(requests, id)
    ensures before[id].sealed.ciphertext in s.owner <==> id in s.entries
    ensures id in s.entries ==> s.entries[id] == before[id]
  {
    EntryOwned(s, id);
  }

  /**
   * The last read's ciphertext is the caller's own: it equals what was stored and no later request of
   * anybody changes it, while the store's own copy stays zero.
   */
  method LastReadIsStable(s: Store, id: Id, requests: seq<Request>) returns (r: Entry?, gone: Option<GoneError>)
    requires s.Valid()
    modifies s, s.clock, s.held, s.owner.Keys
    ensures s.Valid()
    ensures r != null && r.readsRemaining <= 0 ==>
      && id in old(s.entries) && r.sealed.ciphertext[..] == old(s.entries[id].sealed.ciphertext[..])
      && Zeroed(old(s.entries[id]).sealed.ciphertext)
  {
    hide Store.Valid, Zeroed, Served, AnswerOf, Matches;
    r, gone := Read(s, id);
    ServeAll(s, requests);
  }

  /**
   * An earlier read hands out the store's own array: whatever happens in between, and however many reads
   * there are, once somebody makes the last read the bytes of every earlier reader are zero.
   */
  method EarlierReadIsWiped(s: Store, id: Id, requests: seq<Request>) returns (r: Entry?, last: Entry?)
    requires s.Valid()
    modifies s, s.clock, s.held, s.owner.Keys
    ensures s.Valid()
    ensures r != null && r.readsRemaining > 0 && !Stores(requests, id) && last != null && last.readsRemaining <= 0 ==>
      && id in old(s.entries) && Zeroed(r.sealed.ciphertext)
      && last.sealed.ciphertext[..] == old(s.entries[id].sealed.ciphertext[..])
  {
    hide Store.Valid, Zeroed, AnswerOf, Matches, Grown, Stores, Followed;
    var gone;
    ghost var answer, held;
    r, gone, answer, held := ReadThenServe(s, id, requests);
    ghost var entries := s.entries;
    ghost var bytes := if r == null then [] else r.sealed.ciphertext[..];
    last, gone := Read(s, id);
    if r != null && r.readsRemaining > 0 && !Stores(requests, id) && last != null && last.readsRemaining <= 0 {
      assert held && entries[id].sealed.ciphertext == r.sealed.ciphertext;
      assert bytes == answer.secret.ciphertext;
    }
  }

  /** A revocation right after a read that is not the last wipes what the reader holds, at any time. */
  method RevocationWipes(s: Store, id: Id) returns (r: Entry?)
    requires s.Valid()
    modifies s, s.clock, s.held, s.owner.Keys
    ensures s.Valid()
    ensures r != null && r.readsRemaining > 0 ==> Zeroed(r.sealed.ciphertext)
  {
    hide Store.Valid, Zeroed, AnswerOf, Matches, Leaves;
    var gone;
    r, gone := Read(s, id);
    EntryOwned(s, id);
    ghost var now, answer;
    var revoked;
    revoked, gone, now, answer := s.Revoke(id);
  }
}
