/** Two overlapping unwraps of one token. */
module UnwrapRace {
  import opened Api
  import opened Gf256
  import opened StoreClients
  import opened StoreLaws
  import opened StoreReaders
  import opened StoreSpec
  import opened Wrappers
  import Store
  import Tokens

  /** What a valid store's history says about its last two steps. */
  lemma LastTwo(s: Store.Store, id: Id, answer: Answer, es: seq<Event>, ss: seq<State>)
    requires s.Valid() && |ss| == |es| + 1
    requires AskedFirst(id, [Lookup(Take, id)], answer, es, s.events, ss, s.states)
    requires id in ss[|es|].entries && ss[|es|].entries[id].remaining == 2
    requires s.clock.time < ss[|es|].entries[id].expiresAt
    ensures answer == Found(ss[|es|].entries[id].(remaining := 1))
    ensures id !in s.entries
  {
    var n := |es|;
    assert Matches(Lookup(Take, id), s.events[n]) && Matches(Lookup(Take, id), s.events[n + 1]) by {
      assert Matches(([Lookup(Take, id)] + [Lookup(Take, id)])[0], s.events[n + 0]);
      assert Matches(([Lookup(Take, id)] + [Lookup(Take, id)])[1], s.events[n + 1]);
    }
    assert s.states[n] == ss[n];
    RunStep(s.limits, s.events, s.states, n + 1);
    s.KeysMatch();
    hide Run;
    SecondReaderWipesFirst(s.limits, s.events, s.states, n);
  }

  lemma NowAtEnd(s: Store.Store)
    requires s.Valid()
    ensures |s.states| == |s.events| + 1 && s.states[|s.events|] == s.state
  {}

  /**
   * Two unwraps of a token with two reads left, the second one's take between the first one's take and its
   * decryption: before the deadline the first always opens zeros, whatever was stored.
   */
  method OverlappedUnwrap(api: Api, ip: string, header: string) returns (status: int, secret: seq<byte>)
    requires api.failLim.Valid() && api.store.Valid() && api.HasToken(header)
    requires api.IdOf(header) in api.store.state.entries
    requires api.store.state.entries[api.IdOf(header)].remaining == 2
    modifies api.failLim, api.failLim.clock, api.failLim.owner.Keys
    modifies api.store, api.store.clock, api.store.held, api.store.owner.Keys
    ensures api.store.clock.time < old(api.store.state.entries[api.IdOf(header)].expiresAt) ==>
      var e := old(api.store.state.entries[api.IdOf(header)]);
      && status in {200, 500}
      && api.decrypt(Tokens.ParseToken(header).value, e.salt, e.nonce, Zeros(|e.ciphertext|))
         == if status == 200 then Some(secret) else None
  {
    ghost var id := api.IdOf(header);
    NowAtEnd(api.store);
    ghost var es, ss, e := api.store.events, api.store.states, api.store.state.entries[id];
    NothingStored(id);
    hide Store.Store.Valid, Grown, AskedFirst, Api.Unsealed, Reports, Stores;
    ghost var answer, held;
    status, secret, answer, held := api.HandleUnwrap(ip, header, [Lookup(Take, api.IdOf(header))]);
    if api.store.clock.time < e.expiresAt {
      LastTwo(api.store, id, answer, es, ss);
      ZerosOpened(api, Tokens.ParseToken(header).value, answer, status, secret);
    }
  }

  lemma NothingStored(id: Id)
    ensures !Stores([Lookup(Take, id)], id)
  {}

  lemma ZerosOpened(api: Api, key: seq<byte>, answer: Answer, status: int, secret: seq<byte>)
    requires answer.Found? && answer.secret.remaining > 0 && api.Unsealed(key, answer, false, status, secret)
    requires Reports(status, answer, {200, 500})
    ensures status in {200, 500}
    ensures api.decrypt(key, answer.secret.salt, answer.secret.nonce, Zeros(|answer.secret.ciphertext|))
            == if status == 200 then Some(secret) else None
  {}
}
