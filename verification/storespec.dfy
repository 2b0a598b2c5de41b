/**
 * The secret store as a transition system over values. Each step is one critical section; a run is any
 * interleaving of steps on any IDs, with the janitor's purge anywhere in between.
 */
module StoreSpec {
  import opened Gf256
  import opened Wrappers

  type Id = string

  /** Nanoseconds on a monotone clock. */
  type Instant = int

  const DAY: int := 24 * 60 * 60 * 1_000_000_000

  datatype Reason = Consumed | Expired | Revoked

  datatype Tombstone = Tombstone(reason: Reason, at: Instant, until: Instant)

  datatype Secret = Secret(ciphertext: seq<byte>, salt: seq<byte>, nonce: seq<byte>,
                           createdAt: Instant, expiresAt: Instant, remaining: int, total: int)

  datatype Limits = Limits(maxSecrets: int, maxTombstones: int) {
    function WithDefaults(): (l: Limits)
      ensures l.maxSecrets > 0 && l.maxTombstones > 0
      ensures maxSecrets > 0 ==> l.maxSecrets == maxSecrets
      ensures maxTombstones > 0 ==> l.maxTombstones == maxTombstones
      ensures maxSecrets <= 0 ==> l.maxSecrets == 10000
      ensures maxTombstones <= 0 ==> l.maxTombstones == 4 * l.maxSecrets
    {
      var secrets := if maxSecrets <= 0 then 10000 else maxSecrets;
      Limits(secrets, if maxTombstones <= 0 then 4 * secrets else maxTombstones)
    }
  }

  datatype State = State(entries: map<Id, Secret>, tombs: map<Id, Tombstone>)

  const EMPTY := State(map[], map[])

  // ----- one lookup -----

  datatype Answer = Unknown | Gone(reason: Reason, at: Instant) | Found(secret: Secret)

  function Max(a: int, b: int): int { if a < b then b else a }

  predicate AtCap(lim: Limits, tombs: map<Id, Tombstone>) { |tombs| >= lim.maxTombstones }

  /** The tombstones after a burial at `now`; at the cap the evidence is dropped. */
  function Bury(lim: Limits, tombs: map<Id, Tombstone>, id: Id, reason: Reason, expiresAt: Instant, now: Instant)
    : map<Id, Tombstone>
  {
    if AtCap(lim, tombs) then tombs
    else tombs[id := Tombstone(reason, if reason == Expired then expiresAt else now, Max(expiresAt, now + DAY))]
  }

  /** The entry leaves the store for the given reason. */
  function Remove(lim: Limits, s: State, id: Id, reason: Reason, now: Instant): State
    requires id in s.entries
  {
    State(s.entries - {id}, Bury(lim, s.tombs, id, reason, s.entries[id].expiresAt, now))
  }

  /** Lazy expiry at `now` (buried at `later`), then removal of a tombstone that has outlived its term. */
  function Settle(lim: Limits, s: State, id: Id, now: Instant, later: Instant): State {
    if id in s.entries && now < s.entries[id].expiresAt then s
    else
      var t := if id in s.entries then Remove(lim, s, id, Expired, later) else s;
      if id in t.tombs && now >= t.tombs[id].until then State(t.entries, t.tombs - {id}) else t
  }

  function Lookup(s: State, id: Id): Answer {
    if id in s.entries then Found(s.entries[id])
    else if id in s.tombs then Gone(s.tombs[id].reason, s.tombs[id].at)
    else Unknown
  }

  /** One read off a live entry; the last read removes it. */
  function Spend(lim: Limits, s: State, id: Id, now: Instant): State
    requires id in s.entries
  {
    var e := s.entries[id];
    if e.remaining - 1 <= 0 then Remove(lim, s, id, Consumed, now)
    else State(s.entries[id := e.(remaining := e.remaining - 1)], s.tombs)
  }

  // ----- steps -----

  datatype Op = Take | Peek | Revoke

  /** Each step carries its clock readings; a purge also carries what it buried. */
  datatype Event =
    | Put(id: Id, secret: Secret, now: Instant)
    | Refused(now: Instant)
    | Look(op: Op, id: Id, now: Instant, later: Instant, answer: Answer)
    | Purge(now: Instant, later: Instant, buried: map<Id, Tombstone>)
  {
    function End(): Instant {
      if Look? || Purge? then later else now
    }
  }

  predicate PutStep(lim: Limits, s: State, e: Event, s': State)
    requires e.Put?
  {
    && |s.entries| < lim.maxSecrets
    && e.secret.createdAt == e.now
    && e.secret.remaining == e.secret.total
    && s' == State(s.entries[e.id := e.secret], s.tombs)
  }

  predicate LookStep(lim: Limits, s: State, e: Event, s': State)
    requires e.Look?
  {
    var t := Settle(lim, s, e.id, e.now, e.later);
    var found := Lookup(t, e.id);
    match e.op
    case Peek => e.answer == found && s' == t
    case Revoke => e.answer == found && s' == if found.Found? then Remove(lim, t, e.id, Revoked, e.later) else t
    case Take =>
      if found.Found? then
        && e.answer == Found(found.secret.(remaining := found.secret.remaining - 1))
        && s' == Spend(lim, t, e.id, e.later)
      else e.answer == found && s' == t
  }

  function Overdue(s: State, now: Instant): set<Id> {
    set id | id in s.entries && s.entries[id].expiresAt <= now
  }

  /** The tombstones whose term has not run out. */
  function Standing(tombs: map<Id, Tombstone>, now: Instant): map<Id, Tombstone> {
    map id | id in tombs && now < tombs[id].until :: tombs[id]
  }

  /** The tombstone of an expiry noticed between two instants. */
  predicate FairTomb(t: Tombstone, expiresAt: Instant, now: Instant, later: Instant) {
    && t.reason == Expired && t.at == expiresAt
    && Max(expiresAt, now + DAY) <= t.until <= Max(expiresAt, later + DAY)
  }

  /** Evidence is dropped only at the cap, and the cap is never exceeded. */
  predicate CapHonoured(lim: Limits, before: map<Id, Tombstone>, after: map<Id, Tombstone>, complete: bool) {
    (complete || |after| >= lim.maxTombstones) && |after| <= Max(|before|, lim.maxTombstones)
  }

  /** Every overdue entry goes; each is buried unless the cap is reached; outlived tombstones go. */
  ghost predicate PurgeStep(lim: Limits, s: State, e: Event, s': State)
    requires e.Purge?
  {
    var overdue, all := Overdue(s, e.now), s.tombs + e.buried;
    && e.buried.Keys <= overdue
    && (forall id :: id in e.buried ==> FairTomb(e.buried[id], s.entries[id].expiresAt, e.now, e.later))
    && CapHonoured(lim, s.tombs, all, e.buried.Keys == overdue)
    && s'.entries == s.entries - overdue
    && s'.tombs == Standing(all, e.now)
  }

  ghost predicate Step(lim: Limits, s: State, e: Event, s': State) {
    match e
    case Put(_, _, _) => PutStep(lim, s, e, s')
    case Refused(_) => |s.entries| >= lim.maxSecrets && s' == s
    case Look(_, _, _, _, _) => LookStep(lim, s, e, s')
    case Purge(_, _, _) => PurgeStep(lim, s, e, s')
  }

  // ----- runs -----

  ghost predicate Timely(es: seq<Event>) {
    && (forall i :: 0 <= i < |es| ==> es[i].now <= es[i].End())
    && forall i, j :: 0 <= i < j < |es| ==> es[i].End() <= es[j].now
  }

  /** `ss` are the states before, between and after the events, starting from the empty store. */
  ghost predicate Run(lim: Limits, es: seq<Event>, ss: seq<State>) {
    && |ss| == |es| + 1 && ss[0] == EMPTY
    && Timely(es)
    && forall i :: 0 <= i < |es| ==> Step(lim, ss[i], es[i], ss[i + 1])
  }

  /** Whatever is stored under the ID allows at least one read. */
  ghost predicate Readable(es: seq<Event>, id: Id) {
    forall i :: 0 <= i < |es| && es[i].Put? && es[i].id == id ==> es[i].secret.total >= 1
  }

  /** At most one secret is ever stored under the ID. */
  ghost predicate FreshId(es: seq<Event>, id: Id) {
    && Readable(es, id)
    && forall i, j :: 0 <= i < j < |es| && es[i].Put? && es[j].Put? && es[i].id == id ==> es[j].id != id
  }

  ghost predicate FreshIds(es: seq<Event>) {
    forall id :: FreshId(es, id)
  }

  // ----- the specification: what the history alone says about an ID -----

  /** What was last stored under an ID, how often it was read since, when last, and when it was revoked. */
  datatype Ledger = Ledger(secret: Secret, taken: nat, lastTake: Instant, revoked: Option<Instant>) {
    predicate Available(now: Instant) {
      revoked == None && taken < secret.total && now < secret.expiresAt
    }

    /** What became of a secret that is no longer available. */
    function Fate(): (Reason, Instant) {
      if revoked.Some? then (Revoked, revoked.value)
      else if taken >= secret.total then (Consumed, lastTake)
      else (Expired, secret.expiresAt)
    }
  }

  function Account(es: seq<Event>, id: Id): Option<Ledger> {
    if es == [] then None
    else
      var e, before := es[|es| - 1], Account(es[..|es| - 1], id);
      if e.Put? && e.id == id then Some(Ledger(e.secret, 0, e.now, None))
      else if before.Some? && e.Look? && e.id == id && e.answer.Found? then
        match e.op
        case Take => Some(before.value.(taken := before.value.taken + 1, lastTake := e.later))
        case Revoke => Some(before.value.(revoked := Some(e.later)))
        case Peek => before
      else before
  }

  predicate AvailableIn(es: seq<Event>, id: Id, now: Instant) {
    Account(es, id).Some? && Account(es, id).value.Available(now)
  }
}
