/** The bytes in a reader's hands after the read: its own after a last read, the store's own array before. */
module StoreReaders {
  import opened Gf256
  import opened StoreLaws
  import opened StoreSpec

  function Zeros(n: nat): seq<byte> { seq(n, i => 0) }

  /** What a read that returned `given` shows later, when its ID is, or is not, still held. */
  function BytesLater(given: Secret, held: bool): seq<byte> {
    if given.remaining <= 0 || held then given.ciphertext else Zeros(|given.ciphertext|)
  }

  /** Runs that go on from another one without storing the ID anew. */
  ghost predicate Continues(es: seq<Event>, es': seq<Event>, id: Id) {
    |es| <= |es'| && es'[..|es|] == es && NoPut(es', |es|, |es'|, id)
  }

  /** Revoking an ID is possible after every run, and ends whatever the ID held. */
  lemma RevokeNext(lim: Limits, es: seq<Event>, ss: seq<State>, id: Id) returns (e: Event, s': State)
    requires Run(lim, es, ss)
    ensures Run(lim, es + [e], ss + [s']) && e.Look? && e.op == Revoke && e.id == id && id !in s'.entries
  {
    var s, now := ss[|es|], ClockAt(es, |es|);
    var t := Settle(lim, s, id, now, now);
    e := Look(Revoke, id, now, now, Lookup(t, id));
    s' := if id in t.entries then Remove(lim, t, id, Revoked, now) else t;
    assert Step(lim, s, e, s') by {
      hide Settle, Remove;
    }
    hide Step, Settle, Bury;
    RunExtends(lim, es, ss, e, s');
  }

  /**
   * A reader's bytes stay what they are in every continuation of the run exactly when the read was the
   * last one; all-zero bytes, which no wiping changes, set aside. (An ID stored anew has another array.)
   */
  lemma StableIffLast(lim: Limits, es: seq<Event>, ss: seq<State>, i: nat)
    requires Run(lim, es, ss) && i < |es| && es[i].Look? && es[i].op == Take && es[i].answer.Found?
    requires NoPut(es, i, |es|, es[i].id)
    requires es[i].answer.secret.ciphertext != Zeros(|es[i].answer.secret.ciphertext|)
    ensures es[i].answer.secret.remaining <= 0 <==>
              forall es': seq<Event>, ss': seq<State> :: Run(lim, es', ss') && Continues(es, es', es[i].id) ==>
                BytesLater(es[i].answer.secret, es[i].id in ss'[|es'|].entries) == es[i].answer.secret.ciphertext
  {
    if es[i].answer.secret.remaining > 0 {
      var e, s' := RevokeNext(lim, es, ss, es[i].id);
      var es', ss' := es + [e], ss + [s'];
      assert Run(lim, es', ss') && Continues(es, es', es[i].id);
      hide Run;
      assert BytesLater(es[i].answer.secret, es[i].id in ss'[|es'|].entries) != es[i].answer.secret.ciphertext;
    }
  }

  /**
   * Two takes of an ID with two reads left, before its deadline and with nothing in between: both succeed,
   * the second ends the entry, and the bytes the first one returned are zero.
   */
  lemma SecondReaderWipesFirst(lim: Limits, es: seq<Event>, ss: seq<State>, n: nat)
    requires Run(lim, es, ss) && n + 1 < |es| && es[n].Look? && es[n + 1].Look?
    requires es[n].op == es[n + 1].op == Take && es[n].id == es[n + 1].id && es[n].id in ss[n].entries
    requires ss[n].entries[es[n].id].remaining == 2 && es[n + 1].now < ss[n].entries[es[n].id].expiresAt
    ensures es[n].answer == Found(ss[n].entries[es[n].id].(remaining := 1))
    ensures es[n + 1].answer == Found(ss[n].entries[es[n].id].(remaining := 0))
    ensures es[n].id !in ss[n + 2].entries
    ensures BytesLater(es[n].answer.secret, es[n].id in ss[n + 2].entries)
            == Zeros(|ss[n].entries[es[n].id].ciphertext|)
  {
    RunStep(lim, es, ss, n);
    RunStep(lim, es, ss, n + 1);
    hide Run, AtCap;
  }

  /** A run in which two readers overlap so: the bytes of the first, as stored when read, are zero two steps later. */
  lemma OverlappingReaders(id: Id, secret: Secret) returns (es: seq<Event>, ss: seq<State>)
    requires secret.createdAt == 0 && secret.remaining == secret.total == 2 && secret.expiresAt > 2
    ensures Run(Limits(10, 10), es, ss) && FreshId(es, id) && |es| == 3
    ensures es[1].Look? && es[1].op == Take && es[1].id == id && es[1].answer == Found(secret.(remaining := 1))
    ensures BytesLater(es[1].answer.secret, id in ss[2].entries) == secret.ciphertext
    ensures BytesLater(es[1].answer.secret, id in ss[3].entries) == Zeros(|secret.ciphertext|)
  {
    var lim := Limits(10, 10);
    var s1, s2 := State(map[id := secret], map[]), State(map[id := secret.(remaining := 1)], map[]);
    var s3 := State(map[], map[id := Tombstone(Consumed, 2, Max(secret.expiresAt, 2 + DAY))]);
    var put := Put(id, secret, 0);
    var take1 := Look(Take, id, 1, 1, Found(secret.(remaining := 1)));
    var take2 := Look(Take, id, 2, 2, Found(secret.(remaining := 0)));
    es, ss := [put, take1, take2], [EMPTY, s1, s2, s3];
    assert PutStep(lim, EMPTY, put, s1);
    assert LookStep(lim, s1, take1, s2);
    LastTake(lim, s2, id, 2);
    assert s2.entries - {id} == map[];
    hide PutStep, LookStep;
  }
}
