/** Admission and the token-bearing handlers, as far as they touch the limiters and the store. */
module Api {
  import opened Gf256
  import opened RateLimiter
  import opened StoreClients
  import opened StoreReaders
  import opened StoreSpec
  import opened Wrappers
  import Store
  import TokenBucket
  import Tokens

  const OK := 200
  const NO_CONTENT := 204
  const BAD_REQUEST := 400
  const NOT_FOUND := 404
  const GONE := 410
  const INTERNAL := 500

  /** The failures that are charged: a token that is malformed, unknown or gone. */
  predicate Charged(status: int): (charged: bool)
    ensures charged <==> status == 404 || status == 410
  {
    status == NOT_FOUND || status == GONE
  }

  /** SHA-256 in hex, and authenticated decryption, left uninterpreted. */
  type LookupHash = seq<byte> -> Id
  type Opener = (seq<byte>, seq<byte>, seq<byte>, seq<byte>) -> Option<seq<byte>>

  class Api {
    const store: Store.Store
    const limiter: Limiter
    const failLim: Limiter
    const lookupID: LookupHash
    const decrypt: Opener

    ghost predicate LimitersValid()
      reads limiter, limiter.owner.Keys, limiter.clock, failLim, failLim.owner.Keys, failLim.clock
    {
      && limiter.Valid() && failLim.Valid()
      && limiter != failLim && limiter.clock != failLim.clock && limiter.owner.Keys !! failLim.owner.Keys
    }

    constructor (store: Store.Store, limiter: Limiter, failLim: Limiter, lookupID: LookupHash, decrypt: Opener)
      ensures this.store == store && this.limiter == limiter && this.failLim == failLim
      ensures this.lookupID == lookupID && this.decrypt == decrypt
    {
      this.store, this.limiter, this.failLim := store, limiter, failLim;
      this.lookupID, this.decrypt := lookupID, decrypt;
    }

    /** A request passes on a token of the general limiter and a failure balance that is not negative. */
    method RateLimit(ip: string) returns (pass: bool)
      requires LimitersValid()
      modifies limiter, limiter.clock, limiter.owner.Keys, failLim, failLim.clock, failLim.owner.Keys
      ensures LimitersValid() && old(failLim.clock.time) <= failLim.clock.time
      ensures fresh(limiter.owner.Keys - old(limiter.owner.Keys)) && fresh(failLim.owner.Keys - old(failLim.owner.Keys))
      ensures limiter.calls == old(limiter.calls) + [TokenBucket.Call(TokenBucket.Allow, ip, limiter.clock.time)]
      ensures var allowed := TokenBucket.Answer(limiter.params, limiter.calls, |limiter.calls| - 1);
              if allowed then
                && failLim.calls == old(failLim.calls) + [TokenBucket.Call(TokenBucket.PeekOK, ip, failLim.clock.time)]
                && pass == TokenBucket.Answer(failLim.params, failLim.calls, |failLim.calls| - 1)
              else failLim.calls == old(failLim.calls) && !pass
    {
      hide Limiter.Valid, Limiter.Consistent, TokenBucket.Answer;
      var allowed := limiter.Allow(ip);
      if !allowed { return false; }
      pass := failLim.PeekOK(ip);
    }

    method FailedAuth(ip: string)
      requires failLim.Valid()
      modifies failLim, failLim.clock, failLim.owner.Keys
      ensures failLim.Valid() && fresh(failLim.owner.Keys - old(failLim.owner.Keys))
      ensures old(failLim.clock.time) <= failLim.clock.time
      ensures failLim.calls == old(failLim.calls) + [TokenBucket.Call(TokenBucket.Take, ip, failLim.clock.time)]
    {
      failLim.Take(ip);
    }

    /** Parses the token header; a malformed token is charged and answered like an unknown one. */
    method TokenFrom(ip: string, header: string) returns (raw: Option<seq<byte>>, status: int)
      requires failLim.Valid()
      modifies failLim, failLim.clock, failLim.owner.Keys
      ensures failLim.Valid() && fresh(failLim.owner.Keys - old(failLim.owner.Keys))
      ensures old(failLim.clock.time) <= failLim.clock.time
      ensures raw == if header != "" && Tokens.ParseToken(header).Ok? then Some(Tokens.ParseToken(header).value)
                     else None
      ensures raw == None ==> status == if header == "" then 400 else 404
      ensures failLim.calls == old(failLim.calls)
        + if raw == None && Charged(status) then [TokenBucket.Call(TokenBucket.Take, ip, failLim.clock.time)] else []
    {
      if header == "" { return None, BAD_REQUEST; }
      var parsed := Tokens.ParseToken(header);
      if parsed.Err? {
        FailedAuth(ip);
        return None, NOT_FOUND;
      }
      return Some(parsed.value), OK;
    }

    /** Reports a miss and charges it. */
    method WriteGone(ip: string, gone: Option<Store.GoneError>) returns (status: int)
      requires failLim.Valid()
      modifies failLim, failLim.clock, failLim.owner.Keys
      ensures failLim.Valid() && fresh(failLim.owner.Keys - old(failLim.owner.Keys))
      ensures old(failLim.clock.time) <= failLim.clock.time
      ensures status == if gone.Some? then 410 else 404
      ensures failLim.calls == old(failLim.calls) + [TokenBucket.Call(TokenBucket.Take, ip, failLim.clock.time)]
    {
      FailedAuth(ip);
      status := if gone.Some? then GONE else NOT_FOUND;
    }

    method AskPeek(id: Id) returns (entry: Store.Entry?, gone: Option<Store.GoneError>, ghost answer: Answer)
      requires store.Valid()
      modifies store, store.clock, store.held, store.owner.Keys
      ensures store.held <= old(store.held) && store.owner.Keys <= old(store.owner.Keys)
      ensures store.Valid() && Asked(Peek, id, answer, old(store.events), store.events)
              && answer == Store.AnswerOf(entry, gone)
    {
      EntryOwned(store, id);
      hide Store.Store.Valid, Store.Zeroed, Store.Leaves;
      ghost var now;
      entry, gone, now := store.Peek(id);
      answer := Store.AnswerOf(entry, gone);
    }

    method AskRevoke(id: Id) returns (revoked: bool, gone: Option<Store.GoneError>, ghost answer: Answer)
      requires store.Valid()
      modifies store, store.clock, store.held, store.owner.Keys
      ensures store.held <= old(store.held) && store.owner.Keys <= old(store.owner.Keys)
      ensures store.Valid() && Asked(Revoke, id, answer, old(store.events), store.events)
      ensures if revoked then answer.Found? else answer == Store.AnswerOf(null, gone)
    {
      EntryOwned(store, id);
      hide Store.Store.Valid, Store.Zeroed, Store.Leaves;
      ghost var now;
      revoked, gone, now, answer := store.Revoke(id);
    }

    /** Whether the header holds a well-formed token. */
    predicate HasToken(header: string) {
      header != "" && Tokens.ParseToken(header).Ok?
    }

    /** The ID that the header's token stands for. */
    function IdOf(header: string): Id
      requires HasToken(header)
    {
      lookupID(Tokens.ParseToken(header).value)
    }

    /** Charged once on 404 and 410, and not otherwise. */
    twostate predicate ChargedOnce(ip: string, status: int)
      reads failLim, failLim.clock
    {
      failLim.calls == old(failLim.calls)
        + if Charged(status) then [TokenBucket.Call(TokenBucket.Take, ip, failLim.clock.time)] else []
    }

    /**
     * A found secret is answered with what its key opens the reader's bytes to, or with an error if the
     * key does not open them; they are the stored ones if the read was the last or the store still held them.
     */
    predicate Unsealed(key: seq<byte>, answer: Answer, held: bool, status: int, secret: seq<byte>) {
      answer.Found? ==>
        decrypt(key, answer.secret.salt, answer.secret.nonce, BytesLater(answer.secret, held))
        == if status == 200 then Some(secret) else None
    }

    /** Takes a read and opens what it returned, with other requests served in between. */
    method Unseal(key: seq<byte>, meanwhile: seq<Request>)
      returns (status: int, secret: seq<byte>, gone: Option<Store.GoneError>, ghost answer: Answer, ghost held: bool)
      requires store.Valid()
      modifies store, store.clock, store.held, store.owner.Keys
      ensures fresh(store.held - old(store.held)) && fresh(store.owner.Keys - old(store.owner.Keys))
      ensures store.Valid() && AskedFirst(lookupID(key), meanwhile, answer,
                                          old(store.events), store.events, old(store.states), store.states)
      ensures Unsealed(key, answer, held, status, secret)
      ensures match answer
              case Found(_) => status in {OK, INTERNAL}
              case Gone(reason, at) => status == NOT_FOUND && gone == Some(Store.GoneError(reason, at))
              case Unknown => status == NOT_FOUND && gone == None
      ensures answer.Found? && answer.secret.remaining > 0 && !Stores(meanwhile, lookupID(key)) ==>
                (held <==> lookupID(key) in store.entries)
    {
      hide Store.Store.Valid, Grown, Stores;
      var entry;
      entry, gone, answer, held := ReadThenServe(store, lookupID(key), meanwhile);
      if entry == null { return NOT_FOUND, [], gone, answer, held; }
      var plaintext := decrypt(key, entry.sealed.salt, entry.sealed.nonce, entry.sealed.ciphertext[..]);
      if plaintext == None { return INTERNAL, [], gone, answer, held; }
      return OK, plaintext.value, gone, answer, held;
    }

    /** Unseals and, on a miss, reports and charges it. */
    method UnwrapToken(ip: string, key: seq<byte>, meanwhile: seq<Request>)
      returns (status: int, secret: seq<byte>, ghost answer: Answer, ghost held: bool)
      requires failLim.Valid() && store.Valid()
      modifies failLim, failLim.clock, failLim.owner.Keys, store, store.clock, store.held, store.owner.Keys
      ensures failLim.Valid() && store.Valid() && fresh(failLim.owner.Keys - old(failLim.owner.Keys))
      ensures fresh(store.held - old(store.held)) && fresh(store.owner.Keys - old(store.owner.Keys))
      ensures ChargedOnce(ip, status) && old(failLim.clock.time) <= failLim.clock.time
      ensures AskedFirst(lookupID(key), meanwhile, answer,
                         old(store.events), store.events, old(store.states), store.states)
      ensures Reports(status, answer, {200, 500}) && Unsealed(key, answer, held, status, secret)
      ensures answer.Found? && answer.secret.remaining > 0 && !Stores(meanwhile, lookupID(key)) ==>
                (held <==> lookupID(key) in store.entries)
    {
      hide Limiter.Valid, Store.Store.Valid, AskedFirst, Stores;
      var gone;
      status, secret, gone, answer, held := Unseal(key, meanwhile);
      if status == NOT_FOUND { status := WriteGone(ip, gone); }
    }

    /**
     * Takes a read. The store's lock is free again before the decryption, so other requests may be
     * served in between; `held` says whether the store then still had the reader's bytes.
     */
    method HandleUnwrap(ip: string, header: string, meanwhile: seq<Request>)
      returns (status: int, secret: seq<byte>, ghost answer: Answer, ghost held: bool)
      requires failLim.Valid() && store.Valid()
      modifies failLim, failLim.clock, failLim.owner.Keys, store, store.clock, store.held, store.owner.Keys
      ensures failLim.Valid() && store.Valid() && fresh(failLim.owner.Keys - old(failLim.owner.Keys))
      ensures fresh(store.held - old(store.held)) && fresh(store.owner.Keys - old(store.owner.Keys))
      ensures ChargedOnce(ip, status) && old(failLim.clock.time) <= failLim.clock.time
      ensures if HasToken(header)
              then AskedFirst(IdOf(header), meanwhile, answer,
                              old(store.events), store.events, old(store.states), store.states)
                   && Reports(status, answer, {200, 500})
                   && Unsealed(Tokens.ParseToken(header).value, answer, held, status, secret)
              else store.events == old(store.events) && status == if header == "" then 400 else 404
      ensures HasToken(header) && answer.Found? && answer.secret.remaining > 0 && !Stores(meanwhile, IdOf(header)) ==>
                (held <==> IdOf(header) in store.entries)
    {
      hide Limiter.Valid, Store.Store.Valid, AskedFirst, Unsealed, Reports, Stores, Tokens.ParseToken;
      secret, answer, held := [], Unknown, false;
      var raw;
      raw, status := TokenFrom(ip, header);
      if raw == None { return; }
      status, secret, answer, held := UnwrapToken(ip, raw.value, meanwhile);
    }

    /** Reports on a secret and leaves its reads alone. */
    method HandlePeek(ip: string, header: string) returns (status: int, ghost answer: Answer)
      requires failLim.Valid() && store.Valid()
      modifies failLim, failLim.clock, failLim.owner.Keys, store, store.clock, store.held, store.owner.Keys
      ensures failLim.Valid() && store.Valid() && fresh(failLim.owner.Keys - old(failLim.owner.Keys))
      ensures store.held <= old(store.held) && store.owner.Keys <= old(store.owner.Keys)
      ensures ChargedOnce(ip, status) && old(failLim.clock.time) <= failLim.clock.time
      ensures if HasToken(header)
              then Asked(Peek, IdOf(header), answer, old(store.events), store.events) && Reports(status, answer, {200})
              else store.events == old(store.events) && status == if header == "" then 400 else 404
    {
      hide Limiter.Valid, Store.Store.Valid, Asked, Tokens.ParseToken;
      answer := Unknown;
      var raw;
      raw, status := TokenFrom(ip, header);
      if raw == None { return; }
      var entry, gone;
      entry, gone, answer := AskPeek(lookupID(raw.value));
      if entry != null { return OK, answer; }
      status := WriteGone(ip, gone);
    }

    /** Revokes before the last read. */
    method HandleRevoke(ip: string, header: string) returns (status: int, ghost answer: Answer)
      requires failLim.Valid() && store.Valid()
      modifies failLim, failLim.clock, failLim.owner.Keys, store, store.clock, store.held, store.owner.Keys
      ensures failLim.Valid() && store.Valid() && fresh(failLim.owner.Keys - old(failLim.owner.Keys))
      ensures store.held <= old(store.held) && store.owner.Keys <= old(store.owner.Keys)
      ensures ChargedOnce(ip, status) && old(failLim.clock.time) <= failLim.clock.time
      ensures if HasToken(header)
              then Asked(Revoke, IdOf(header), answer, old(store.events), store.events)
                   && Reports(status, answer, {204})
              else store.events == old(store.events) && status == if header == "" then 400 else 404
    {
      hide Limiter.Valid, Store.Store.Valid, Asked, Tokens.ParseToken;
      answer := Unknown;
      var raw;
      raw, status := TokenFrom(ip, header);
      if raw == None { return; }
      var revoked, gone;
      revoked, gone, answer := AskRevoke(lookupID(raw.value));
      if revoked { return NO_CONTENT, answer; }
      status := WriteGone(ip, gone);
    }
  }

  /** The store took exactly one step, a lookup of the ID, and answered `answer`. */
  ghost predicate Asked(op: Op, id: Id, answer: Answer, es: seq<Event>, es': seq<Event>) {
    && |es'| == |es| + 1 && es'[..|es|] == es
    && var e := es'[|es|];
    && e.Look? && e.op == op && e.id == id && e.answer == answer
  }

  /** The handler's own take, followed by the requests served before it went on. */
  ghost predicate AskedFirst(id: Id, meanwhile: seq<Request>, answer: Answer, es: seq<Event>, es': seq<Event>,
                             ss: seq<State>, ss': seq<State>)
  {
    && Grown([Lookup(Take, id)] + meanwhile, es, es', ss, ss')
    && |es'| > |es| && es'[|es|].Look? && es'[|es|].answer == answer
  }

  /** The status a handler gives for the store's answer. */
  predicate Reports(status: int, answer: Answer, found: set<int>): (ok: bool)
    ensures ok && answer.Gone? ==> status == 410
    ensures ok && answer.Unknown? ==> status == 404
    ensures ok && answer.Found? ==> status in found
  {
    match answer
    case Found(_) => status in found
    case Gone(_, _) => status == GONE
    case Unknown => status == NOT_FOUND
  }
}
