/** The limiter: lazily refilled buckets, swept once a minute, answering like ideal buckets. */
module RateLimiter {
  import opened TokenBucket

  class Stopwatch {
    var time: real

    constructor (start: real)
      ensures time == start
    {
      time := start;
    }

    method Now() returns (t: real)
      modifies this
      ensures old(time) <= t == time
    {
      var elapsed: real := *;
      if elapsed > 0.0 { time := time + elapsed; }
      t := time;
    }
  }

  class Bucket {
    var tokens: real
    var last: real

    constructor (tokens: real, last: real)
      ensures this.tokens == tokens && this.last == last
    {
      this.tokens, this.last := tokens, last;
    }
  }

  // ----- stored buckets against ideal buckets -----

  datatype Stored = Stored(tokens: real, last: real)

  /** What a key's bucket, present or swept, is worth at `t`. */
  function Worth(p: Params, stored: map<Key, Stored>, key: Key, t: real): real {
    if key in stored then Min(p.burst, stored[key].tokens + Accrued(p.rate, t - stored[key].last)) else p.burst
  }

  /** From `now` on, every key's bucket is worth what its ideal bucket holds. */
  ghost predicate Faithful(p: Params, stored: map<Key, Stored>, calls: seq<Call>, now: real) {
    forall key, t :: now <= t ==> Worth(p, stored, key, t) == Level(p, Charges(p, calls, key), t)
  }

  /** The buckets that a sweep at `now` keeps: those not yet full again. */
  function Unfilled(p: Params, stored: map<Key, Stored>, now: real): map<Key, Stored> {
    map key | key in stored && stored[key].tokens + Accrued(p.rate, now - stored[key].last) < p.burst :: stored[key]
  }

  /** After a sweep a bucket is there, as it was, exactly if it would not be full by now. */
  lemma SweepsTheFull(p: Params, stored: map<Key, Stored>, now: real, key: Key)
    ensures key in Unfilled(p, stored, now) <==>
              key in stored && stored[key].tokens + (now - stored[key].last) * p.rate < p.burst
    ensures key in Unfilled(p, stored, now) ==> Unfilled(p, stored, now)[key] == stored[key]
  {}

  /** Refilling in two steps is refilling once. */
  lemma RefillTwice(p: Params, tokens: real, last: real, mid: real, t: real)
    requires p.Valid() && mid <= t
    ensures Min(p.burst, Min(p.burst, tokens + Accrued(p.rate, mid - last)) + Accrued(p.rate, t - mid))
            == Min(p.burst, tokens + Accrued(p.rate, t - last))
  {
    hide Accrued;
    AccruedLaws(p.rate, mid - last, t - mid);
    AccruedLaws(p.rate, t - mid, 0.0);
    assert mid - last + (t - mid) == t - last;
  }

  /** Writing a bucket's present worth back into it changes no later worth. */
  lemma RefillIsInvisible(p: Params, stored: map<Key, Stored>, key: Key, now: real, t: real, key': Key)
    requires p.Valid() && now <= t
    ensures Worth(p, stored[key := Stored(Worth(p, stored, key, now), now)], key', t) == Worth(p, stored, key', t)
  {
    hide Accrued;
    if key' == key {
      if key in stored {
        RefillTwice(p, stored[key].tokens, stored[key].last, now, t);
      } else {
        AccruedLaws(p.rate, 0.0, t - now);
      }
    }
  }

  lemma RefillKeepsFaith(p: Params, stored: map<Key, Stored>, calls: seq<Call>, key: Key, now: real)
    requires p.Valid() && Faithful(p, stored, calls, now)
    ensures Faithful(p, stored[key := Stored(Worth(p, stored, key, now), now)], calls, now)
  {
    hide Accrued, Level, Charges, Worth;
    forall key', t | now <= t
      ensures Worth(p, stored[key := Stored(Worth(p, stored, key, now), now)], key', t)
              == Level(p, Charges(p, calls, key'), t)
    {
      RefillIsInvisible(p, stored, key, now, t, key');
    }
  }

  /** Sweeping a bucket that has fully refilled changes no later worth. */
  lemma SweepKeepsFaith(p: Params, stored: map<Key, Stored>, calls: seq<Call>, key: Key, now: real)
    requires p.Valid() && Faithful(p, stored, calls, now) && key in stored
    requires stored[key].tokens + Accrued(p.rate, now - stored[key].last) >= p.burst
    ensures Faithful(p, stored - {key}, calls, now)
  {
    hide Level, Charges, Accrued;
    forall key', t | now <= t
      ensures Worth(p, stored - {key}, key', t) == Level(p, Charges(p, calls, key'), t)
    {
      AccruedLaws(p.rate, now - stored[key].last, t - stored[key].last);
      assert Worth(p, stored, key', t) == Level(p, Charges(p, calls, key'), t);
    }
  }

  /** A call that charges nothing leaves every ideal bucket alone. */
  lemma UnchargedKeepsFaith(p: Params, stored: map<Key, Stored>, calls: seq<Call>, call: Call)
    requires Faithful(p, stored, calls, call.at)
    requires call.kind == Kind.PeekOK || (call.kind == Kind.Allow
            && Level(p, Charges(p, calls, call.key), call.at) < 1.0)
    ensures Faithful(p, stored, calls + [call], call.at)
  {
    hide Level, Worth;
    assert (calls + [call])[..|calls|] == calls;
    forall key, t | call.at <= t
      ensures Worth(p, stored, key, t) == Level(p, Charges(p, calls + [call], key), t)
    {}
  }

  /** A charge on a refilled bucket is a charge on the ideal bucket. */
  lemma ChargeKeepsFaith(p: Params, stored: map<Key, Stored>, calls: seq<Call>, call: Call)
    requires p.Valid() && Faithful(p, stored, calls, call.at)
    requires call.key in stored && stored[call.key].last == call.at && stored[call.key].tokens <= p.burst
    requires call.kind == Kind.Take || (call.kind == Kind.Allow
            && Level(p, Charges(p, calls, call.key), call.at) >= 1.0)
    ensures Faithful(p, stored[call.key := Stored(stored[call.key].tokens - 1.0, call.at)], calls + [call], call.at)
  {
    hide Accrued;
    var tokens := stored[call.key].tokens;
    var stored' := stored[call.key := Stored(tokens - 1.0, call.at)];
    assert (calls + [call])[..|calls|] == calls;
    AccruedLaws(p.rate, 0.0, 0.0);
    assert Worth(p, stored, call.key, call.at) == tokens;
    forall key, t | call.at <= t
      ensures Worth(p, stored', key, t) == Level(p, Charges(p, calls + [call], key), t)
    {
      var before := Charges(p, calls, key);
      if key == call.key {
        assert (before + [call.at])[..|before|] == before;
      } else {
        assert Worth(p, stored, key, t) == Level(p, before, t);
      }
    }
  }

  lemma WorthIsLevel(p: Params, stored: map<Key, Stored>, calls: seq<Call>, key: Key, now: real)
    requires Faithful(p, stored, calls, now)
    ensures Worth(p, stored, key, now) == Level(p, Charges(p, calls, key), now)
  {}

  // ----- the limiter -----

  class Limiter {
    var buckets: map<Key, Bucket>
    const params: Params
    const clock: Stopwatch
    var lastGC: real

    /** The buckets in the map, each with the key it belongs to. */
    ghost var owner: map<Bucket, Key>
    /** The values in the buckets. */
    ghost var stored: map<Key, Stored>
    /** The calls so far. */
    ghost var calls: seq<Call>

    ghost predicate Consistent()
      reads `buckets, `owner, `stored, owner.Keys
    {
      && params.Valid() && stored.Keys == buckets.Keys
      && forall key :: key in buckets ==>
           && buckets[key] in owner && owner[buckets[key]] == key
           && stored[key] == Stored(buckets[key].tokens, buckets[key].last)
    }

    ghost predicate Valid()
      reads this, owner.Keys, clock
    {
      && Consistent()
      && Timely(calls) && (calls != [] ==> calls[|calls| - 1].at <= clock.time)
      && Faithful(params, stored, calls, clock.time)
    }

    constructor (rate: real, burst: real, clock: Stopwatch)
      requires rate >= 0.0 && burst >= 0.0
      ensures Valid() && params == Params(rate, burst) && this.clock == clock && calls == [] && owner == map[]
    {
      buckets, params, this.clock := map[], Params(rate, burst), clock;
      lastGC := clock.time - 60.0;
      owner, stored, calls := map[], map[], [];
    }

    /** Sweeps the fully refilled buckets, at most once a minute. */
    method GcLocked(now: real)
      requires Consistent() && Faithful(params, stored, calls, now)
      modifies `buckets, `lastGC, `stored
      ensures Consistent() && Faithful(params, stored, calls, now)
      ensures if now - old(lastGC) < 60.0 then lastGC == old(lastGC) && stored == old(stored)
              else lastGC == now && stored == Unfilled(params, old(stored), now)
    {
      hide Faithful, Accrued;
      if now - lastGC < 60.0 { return; }
      lastGC := now;
      var rest := buckets.Keys;
      while rest != {}
        invariant lastGC == now && rest <= buckets.Keys && Consistent() && Faithful(params, stored, calls, now)
        invariant forall key :: key in stored <==>
          key in old(stored) && (key in rest || key in Unfilled(params, old(stored), now))
        invariant forall key :: key in stored ==> stored[key] == old(stored)[key]
        decreases rest
      {
        var k :| k in rest;
        var b := buckets[k];
        var idle := Accrued(params.rate, now - b.last);
        if b.tokens + idle >= params.burst {
          SweepKeepsFaith(params, stored, calls, k, now);
          Sweep(k);
        }
        rest := rest - {k};
      }
      assert stored == Unfilled(params, old(stored), now);
    }

    method Sweep(k: Key)
      requires Consistent() && k in buckets
      modifies `buckets, `stored
      ensures Consistent() && buckets == old(buckets) - {k} && stored == old(stored) - {k}
    {
      buckets := buckets - {k};
      stored := stored - {k};
    }

    /** The key's bucket, brought up to date. */
    method RefillLocked(key: Key) returns (b: Bucket)
      requires Valid()
      modifies `buckets, `lastGC, `stored, `owner, clock, owner.Keys
      ensures Consistent() && Faithful(params, stored, calls, clock.time) && old(clock.time) <= clock.time
      ensures key in buckets && b == buckets[key] && b.last == clock.time
      ensures b.tokens == Level(params, Charges(params, calls, key), clock.time) <= params.burst
      ensures fresh(owner.Keys - old(owner.Keys))
    {
      hide Accrued, Level, Charges, Worth;
      var now := clock.Now();
      GcLocked(now);
      RefillKeepsFaith(params, stored, calls, key, now);
      WorthIsLevel(params, stored, calls, key, now);
      hide Faithful;
      if key !in buckets {
        b := AddFull(key, now);
        return;
      }
      b := buckets[key];
      Refill(key, b, now);
    }

    method AddFull(key: Key, now: real) returns (b: Bucket)
      requires Consistent() && key !in buckets
      modifies `buckets, `stored, `owner
      ensures Consistent() && fresh(b) && key in buckets && b == buckets[key] && b.last == now
      ensures b.tokens == Worth(params, old(stored), key, now) <= params.burst
      ensures stored == old(stored)[key := Stored(Worth(params, old(stored), key, now), now)]
      ensures owner == old(owner)[b := key]
    {
      b := new Bucket(params.burst, now);
      buckets := buckets[key := b];
      owner := owner[b := key];
      stored := stored[key := Stored(params.burst, now)];
    }

    method Refill(key: Key, b: Bucket, now: real)
      requires Consistent() && key in buckets && b == buckets[key]
      modifies b, `stored
      ensures Consistent() && b.last == now
      ensures b.tokens == Worth(params, old(stored), key, now) <= params.burst
      ensures stored == old(stored)[key := Stored(Worth(params, old(stored), key, now), now)]
    {
      StoredWorth(key, now);
      hide Accrued, Worth;
      b.tokens := b.tokens + Accrued(params.rate, now - b.last);
      if b.tokens > params.burst { b.tokens := params.burst; }
      b.last := now;
      stored := stored[key := Stored(b.tokens, now)];
    }

    lemma StoredWorth(key: Key, now: real)
      requires Consistent() && key in buckets
      ensures var worth := buckets[key].tokens + Accrued(params.rate, now - buckets[key].last);
              Worth(params, stored, key, now) == if worth > params.burst then params.burst else worth
    {
      hide Accrued;
    }

    /** Notes a call that charged nothing. */
    ghost method NoteUncharged(call: Call)
      requires Consistent() && Faithful(params, stored, calls, clock.time) && call.at == clock.time
      requires Timely(calls) && (calls != [] ==> calls[|calls| - 1].at <= clock.time)
      requires call.kind == Kind.PeekOK
               || (call.kind == Kind.Allow && Level(params, Charges(params, calls, call.key), call.at) < 1.0)
      modifies `calls
      ensures Valid() && calls == old(calls) + [call]
    {
      UnchargedKeepsFaith(params, stored, calls, call);
      calls := calls + [call];
    }

    /** Takes one token out of a refilled bucket. */
    method Charge(b: Bucket, ghost call: Call)
      requires Consistent() && Faithful(params, stored, calls, clock.time) && call.at == clock.time
      requires Timely(calls) && (calls != [] ==> calls[|calls| - 1].at <= clock.time)
      requires call.key in buckets && b == buckets[call.key] && b.last == clock.time && b.tokens <= params.burst
      requires call.kind == Kind.Take
               || (call.kind == Kind.Allow && Level(params, Charges(params, calls, call.key), call.at) >= 1.0)
      modifies b, `calls, `stored
      ensures Valid() && calls == old(calls) + [call]
    {
      ChargeKeepsFaith(params, stored, calls, call);
      hide Faithful;
      b.tokens := b.tokens - 1.0;
      stored := stored[call.key := Stored(b.tokens, b.last)];
      calls := calls + [call];
    }

    /** Admits on a whole token, and charges it. */
    method Allow(key: Key) returns (ok: bool)
      requires Valid()
      modifies this, clock, owner.Keys
      ensures Valid() && old(clock.time) <= clock.time && fresh(owner.Keys - old(owner.Keys))
      ensures calls == old(calls) + [Call(Kind.Allow, key, clock.time)]
      ensures ok <==> Answer(params, calls, |calls| - 1)
    {
      hide Faithful, Level, Charges;
      var b := RefillLocked(key);
      ghost var call := Call(Kind.Allow, key, clock.time);
      assert (calls + [call])[..|calls|] == calls;
      if b.tokens < 1.0 {
        NoteUncharged(call);
        return false;
      }
      Charge(b, call);
      return true;
    }

    /** Charges a token whatever the balance, which may fall below zero. */
    method Take(key: Key)
      requires Valid()
      modifies this, clock, owner.Keys
      ensures Valid() && old(clock.time) <= clock.time && fresh(owner.Keys - old(owner.Keys))
      ensures calls == old(calls) + [Call(Kind.Take, key, clock.time)]
    {
      hide Faithful, Level, Charges;
      var b := RefillLocked(key);
      Charge(b, Call(Kind.Take, key, clock.time));
    }

    /** Admits on a balance that is not negative, and charges nothing. */
    method PeekOK(key: Key) returns (ok: bool)
      requires Valid()
      modifies this, clock, owner.Keys
      ensures Valid() && old(clock.time) <= clock.time && fresh(owner.Keys - old(owner.Keys))
      ensures calls == old(calls) + [Call(Kind.PeekOK, key, clock.time)]
      ensures ok <==> Answer(params, calls, |calls| - 1)
    {
      hide Faithful, Level, Charges;
      var b := RefillLocked(key);
      ghost var call := Call(Kind.PeekOK, key, clock.time);
      assert (calls + [call])[..|calls|] == calls;
      ok := b.tokens >= 0.0;
      NoteUncharged(call);
    }
  }
}
