/**
 * The failure budget derived from the code: a server driven by any schedule of its critical sections, each
 * request's own in order and all requests' interleaved at will, makes a legal list of budget steps.
 */
module BudgetRun {
  import opened Api
  import opened FailureBudget
  import opened Gf256
  import opened RateLimiter
  import opened StoreClients
  import opened TokenBucket
  import opened Wrappers
  import Store
  import StoreSpec
  import Tokens

  // ----- requests under way -----

  /** How far a request has come: past the general limiter, admitted, or with an answer still to be reported. */
  datatype Task =
    | Allowed(ip: string)
    | Admitted(ip: string)
    | Answered(ip: string, found: bool, gone: Option<Store.GoneError>)

  /**
   * The next critical section: a new request asks the general limiter; task `i` asks the failure limiter,
   * looks its token up, reports what the store answered, or ends uncharged on a route without a token; or
   * the store serves anybody else.
   */
  datatype Action =
    | Arrive(ip: string)
    | Check(i: nat)
    | LookUp(i: nat, op: StoreSpec.Op, header: string)
    | Report(i: nat)
    | Leave(i: nat)
    | Other(request: Request)

  function Weight(t: Task, ip: string): nat { if !t.Allowed? && t.ip == ip then 1 else 0 }

  /** The requests of an address that are admitted and not done. */
  function Flying(tasks: seq<Task>, ip: string): nat {
    if tasks == [] then 0 else Flying(tasks[..|tasks| - 1], ip) + Weight(tasks[|tasks| - 1], ip)
  }

  function Without(tasks: seq<Task>, i: nat): seq<Task>
    requires i < |tasks|
  {
    tasks[..i] + tasks[i + 1..]
  }

  lemma {:induction false} FlyingConcat(a: seq<Task>, b: seq<Task>, ip: string)
    ensures Flying(a + b, ip) == Flying(a, ip) + Flying(b, ip)
  {
    if b == [] {
      assert a + b == a;
    } else {
      assert (a + b)[..|a + b| - 1] == a + b[..|b| - 1];
      FlyingConcat(a, b[..|b| - 1], ip);
    }
  }

  /** Replacing or dropping one task. */
  lemma FlyingAt(tasks: seq<Task>, i: nat, t: Task, ip: string)
    requires i < |tasks|
    ensures Flying(tasks[i := t], ip) + Weight(tasks[i], ip) == Flying(tasks, ip) + Weight(t, ip)
    ensures Flying(Without(tasks, i), ip) + Weight(tasks[i], ip) == Flying(tasks, ip)
  {
    hide Flying, Weight;
    var a, b := tasks[..i], tasks[i + 1..];
    FlyingConcat(a, b, ip);
    FlyingConcat(a, [t], ip);
    FlyingConcat(a + [t], b, ip);
    FlyingConcat(a, [tasks[i]], ip);
    FlyingConcat(a + [tasks[i]], b, ip);
    FlyingOne(t, ip);
    FlyingOne(tasks[i], ip);
    assert tasks == a + [tasks[i]] + b && tasks[i := t] == a + [t] + b;
  }

  lemma FlyingOne(t: Task, ip: string)
    ensures Flying([t], ip) == Weight(t, ip)
  {
    assert [t][..0] == [];
  }

  /** The budget steps count the tasks in flight. */
  ghost predicate InTune(es: seq<Step>, tasks: seq<Task>) {
    forall ip :: InFlight(es, ip) == Flying(tasks, ip)
  }

  function Change(e: Step): int {
    match e
    case Admit(_, _) => 1
    case Refuse(_, _) => 0
    case Fail(_, _) => -1
    case Finish(_, _) => -1
  }

  lemma InFlightOn(es: seq<Step>, e: Step, ip: string)
    ensures InFlight(es + [e], ip) == InFlight(es, ip) + if e.ip == ip then Change(e) else 0
  {
    assert (es + [e])[..|es|] == es;
  }

  lemma TuneAdmit(es: seq<Step>, tasks: seq<Task>, i: nat, e: Step)
    requires InTune(es, tasks) && i < |tasks| && tasks[i].Allowed? && tasks[i].ip == e.ip
    ensures e.Admit? ==> InTune(es + [e], tasks[i := Admitted(e.ip)])
    ensures e.Refuse? ==> InTune(es + [e], Without(tasks, i))
  {
    hide InFlight, Flying, Without;
    forall ip
      ensures e.Admit? ==> InFlight(es + [e], ip) == Flying(tasks[i := Admitted(e.ip)], ip)
      ensures e.Refuse? ==> InFlight(es + [e], ip) == Flying(Without(tasks, i), ip)
    {
      InFlightOn(es, e, ip);
      FlyingAt(tasks, i, Admitted(e.ip), ip);
    }
  }

  lemma TuneDone(es: seq<Step>, tasks: seq<Task>, i: nat, e: Step)
    requires InTune(es, tasks) && i < |tasks| && !tasks[i].Allowed? && tasks[i].ip == e.ip && (e.Fail? || e.Finish?)
    ensures InFlight(es, e.ip) > 0 && InTune(es + [e], Without(tasks, i))
  {
    hide InFlight, Flying, Without;
    FlyingAt(tasks, i, tasks[i], e.ip);
    forall ip
      ensures InFlight(es + [e], ip) == Flying(Without(tasks, i), ip)
    {
      InFlightOn(es, e, ip);
      FlyingAt(tasks, i, tasks[i], ip);
    }
  }

  lemma TuneSame(es: seq<Step>, tasks: seq<Task>, i: nat, t: Task)
    requires InTune(es, tasks) && i < |tasks| && tasks[i].ip == t.ip && (tasks[i].Allowed? <==> t.Allowed?)
    ensures InTune(es, tasks[i := t])
  {
    hide InFlight, Flying;
    forall ip
      ensures InFlight(es, ip) == Flying(tasks[i := t], ip)
    {
      FlyingAt(tasks, i, t, ip);
    }
  }

  lemma TuneArrival(es: seq<Step>, tasks: seq<Task>, ip: string)
    requires InTune(es, tasks)
    ensures InTune(es, tasks + [Allowed(ip)])
  {
    hide InFlight;
    assert (tasks + [Allowed(ip)])[..|tasks|] == tasks;
  }

  // ----- what an action does -----

  /** The requests under way, the budget steps so far, and what the general limiter and the store recorded. */
  datatype Config = Config(tasks: seq<Task>, steps: seq<Step>, asked: seq<Call>, events: seq<StoreSpec.Event>)

  datatype Rules = Rules(general: Params, failure: Params, lookupID: LookupHash, c: nat)

  ghost predicate OneStep(k: Config, k': Config) {
    |k'.steps| == |k.steps| + 1 && k'.steps[..|k.steps|] == k.steps && k'.asked == k.asked
  }

  ghost predicate OneEvent(k: Config, k': Config) {
    && |k'.events| == |k.events| + 1 && k'.events[..|k.events|] == k.events
    && k'.steps == k.steps && k'.asked == k.asked
  }

  /** A new request is under way exactly if the general limiter's ideal bucket holds a token. */
  ghost predicate Arrived(r: Rules, ip: string, k: Config, k': Config) {
    && |k'.asked| == |k.asked| + 1 && k'.asked[..|k.asked|] == k.asked
    && var call := k'.asked[|k.asked|];
    && call.kind == TokenBucket.Allow && call.key == ip
    && k' == k.(asked := k'.asked,
                tasks := if Answer(r.general, k'.asked, |k.asked|) then k.tasks + [Allowed(ip)] else k.tasks)
  }

  /** An allowed task is admitted exactly if the failure balance is not negative, and refused otherwise. */
  ghost predicate Checked(r: Rules, i: nat, k: Config, k': Config) {
    if i < |k.tasks| && k.tasks[i].Allowed? && Flying(k.tasks, k.tasks[i].ip) < r.c then
      var ip := k.tasks[i].ip;
      && OneStep(k, k') && k'.events == k.events
      && var e := k'.steps[|k.steps|];
      && e.ip == ip
      && if Level(r.failure, FailTimes(k.steps, ip), e.at) >= 0.0 then
           e.Admit? && k'.tasks == k.tasks[i := Admitted(ip)]
         else
           e.Refuse? && k'.tasks == Without(k.tasks, i)
    else k' == k
  }

  predicate AnswerIs(answer: StoreSpec.Answer, t: Task) {
    t.Answered?
    && match answer
       case Found(_) => t.found
       case Gone(reason, at) => !t.found && t.gone == Some(Store.GoneError(reason, at))
       case Unknown => !t.found && t.gone == None
  }

  predicate WellFormed(header: string) { header != "" && Tokens.ParseToken(header).Ok? }

  /** A well-formed token is looked up; a malformed one is charged at once, a missing one is not. */
  ghost predicate LookedUp(r: Rules, i: nat, op: StoreSpec.Op, header: string, k: Config, k': Config)
    requires i < |k.tasks|
  {
    var ip := k.tasks[i].ip;
    if WellFormed(header) then
      && OneEvent(k, k')
      && var e := k'.events[|k.events|];
      && Matches(Lookup(op, r.lookupID(Tokens.ParseToken(header).value)), e)
      && |k'.tasks| == |k.tasks| && k'.tasks == k.tasks[i := k'.tasks[i]]
      && k'.tasks[i].ip == ip && AnswerIs(e.answer, k'.tasks[i])
    else
      && OneStep(k, k') && k'.events == k.events && k'.tasks == Without(k.tasks, i)
      && var e := k'.steps[|k.steps|];
      && e.ip == ip && (if header == "" then e.Finish? else e.Fail?)
  }

  /** The task is done, with a charge or without. */
  ghost predicate Done(i: nat, charged: bool, k: Config, k': Config)
    requires i < |k.tasks|
  {
    && OneStep(k, k') && k'.events == k.events && k'.tasks == Without(k.tasks, i)
    && var e := k'.steps[|k.steps|];
    && e.ip == k.tasks[i].ip && (if charged then e.Fail? else e.Finish?)
  }

  ghost predicate Acted(r: Rules, action: Action, k: Config, k': Config) {
    match action
    case Arrive(ip) => Arrived(r, ip, k, k')
    case Check(i) => Checked(r, i, k, k')
    case LookUp(i, op, header) =>
      if i < |k.tasks| && k.tasks[i].Admitted? then LookedUp(r, i, op, header, k, k') else k' == k
    case Report(i) => if i < |k.tasks| && k.tasks[i].Answered? then Done(i, !k.tasks[i].found, k, k') else k' == k
    case Leave(i) => if i < |k.tasks| && k.tasks[i].Admitted? then Done(i, false, k, k') else k' == k
    case Other(request) => OneEvent(k, k') && k'.tasks == k.tasks && Matches(request, k'.events[|k.events|])
  }

  // ----- a running server -----

  /** What the failure limiter was asked so far are the calls of the budget steps `es`, which are legal. */
  ghost predicate Tracked(api: Api, es: seq<Step>, c: nat)
    reads api.failLim, api.failLim.clock
  {
    && Legal(api.failLim.params, es, c)
    && api.failLim.calls == CallsOf(es)
    && (es != [] ==> es[|es| - 1].at <= api.failLim.clock.time)
  }

  /** The general limiter is only ever asked for admission. */
  ghost predicate OnlyAsked(calls: seq<Call>) {
    forall i :: 0 <= i < |calls| ==> calls[i].kind == TokenBucket.Allow
  }

  /** A server in a valid state, the requests under way, and the budget steps so far. */
  ghost predicate Running(api: Api, tasks: seq<Task>, es: seq<Step>, c: nat)
    reads api.limiter, api.limiter.clock, api.limiter.owner.Keys, api.failLim, api.failLim.clock, api.failLim.owner.Keys
    reads api.store, api.store.clock, api.store.held, api.store.owner.Keys
  {
    && api.LimitersValid() && api.store.Valid()
    && Tracked(api, es, c) && InTune(es, tasks) && OnlyAsked(api.limiter.calls)
  }

  ghost function Now(api: Api, tasks: seq<Task>, es: seq<Step>): Config
    reads api.limiter, api.store
  {
    Config(tasks, es, api.limiter.calls, api.store.events)
  }

  ghost function RulesOf(api: Api, c: nat): Rules {
    Rules(api.limiter.params, api.failLim.params, api.lookupID, c)
  }

  lemma StepOn(api: Api, es: seq<Step>, e: Step, c: nat)
    requires Legal(api.failLim.params, es, c) && MayFollow(api.failLim.params, es, e, c)
    requires es != [] ==> es[|es| - 1].at <= e.at
    requires e.at == api.failLim.clock.time && api.failLim.calls == CallsOf(es + [e])
    ensures Tracked(api, es + [e], c)
  {
    hide MayFollow;
    LegalOn(api.failLim.params, es, e, c);
  }

  method ActArrive(api: Api, ip: string, tasks: seq<Task>, ghost es: seq<Step>, c: nat) returns (tasks': seq<Task>)
    requires Running(api, tasks, es, c)
    modifies api.limiter, api.limiter.clock, api.limiter.owner.Keys
    ensures Running(api, tasks', es, c)
    ensures fresh(api.limiter.owner.Keys - old(api.limiter.owner.Keys))
    ensures Acted(RulesOf(api, c), Arrive(ip), old(Now(api, tasks, es)), Now(api, tasks', es))
  {
    hide Limiter.Valid, Store.Store.Valid, Answer, Legal, InTune;
    TuneArrival(es, tasks, ip);
    var pass := api.limiter.Allow(ip);
    tasks' := if pass then tasks + [Allowed(ip)] else tasks;
  }

  method ActCheck(api: Api, i: nat, tasks: seq<Task>, ghost es: seq<Step>, c: nat)
    returns (tasks': seq<Task>, ghost es': seq<Step>)
    requires Running(api, tasks, es, c)
    modifies api.failLim, api.failLim.clock, api.failLim.owner.Keys
    ensures Running(api, tasks', es', c)
    ensures fresh(api.failLim.owner.Keys - old(api.failLim.owner.Keys))
    ensures Checked(RulesOf(api, c), i, old(Now(api, tasks, es)), Now(api, tasks', es'))
  {
    hide Limiter.Valid, Store.Store.Valid, Answer, Level, Legal, InTune, Without;
    tasks', es' := tasks, es;
    if i < |tasks| && tasks[i].Allowed? && Flying(tasks, tasks[i].ip) < c {
      var ip := tasks[i].ip;
      TuneAt(es, tasks, ip);
      var pass := api.failLim.PeekOK(ip);
      ghost var at := api.failLim.clock.time;
      PeekAnswer(api.failLim.params, es, ip, at);
      ghost var e := if pass then Admit(ip, at) else Refuse(ip, at);
      es' := es + [e];
      tasks' := if pass then tasks[i := Admitted(ip)] else Without(tasks, i);
      assert es'[..|es|] == es;
      TuneAdmit(es, tasks, i, e);
      StepOn(api, es, e, c);
    }
  }

  lemma TuneAt(es: seq<Step>, tasks: seq<Task>, ip: string)
    requires InTune(es, tasks)
    ensures InFlight(es, ip) == Flying(tasks, ip)
  {}

  /** The task is done; `e` is its step, and the failure limiter has been asked accordingly. */
  lemma TaskDone(api: Api, i: nat, tasks: seq<Task>, es: seq<Step>, e: Step, c: nat)
    requires i < |tasks| && !tasks[i].Allowed? && tasks[i].ip == e.ip && (e.Fail? || e.Finish?)
    requires Legal(api.failLim.params, es, c) && InTune(es, tasks)
    requires es != [] ==> es[|es| - 1].at <= e.at
    requires e.at == api.failLim.clock.time
    requires api.failLim.calls == CallsOf(es) + if e.Fail? then [Call(TokenBucket.Take, e.ip, e.at)] else []
    ensures Tracked(api, es + [e], c) && InTune(es + [e], Without(tasks, i))
  {
    assert (es + [e])[..|es|] == es;
    TuneDone(es, tasks, i, e);
    hide Legal, InTune, Without, Level;
    StepOn(api, es, e, c);
  }

  method ActReport(api: Api, i: nat, tasks: seq<Task>, ghost es: seq<Step>, c: nat)
    returns (tasks': seq<Task>, ghost es': seq<Step>)
    requires Running(api, tasks, es, c) && i < |tasks| && tasks[i].Answered?
    modifies api.failLim, api.failLim.clock, api.failLim.owner.Keys
    ensures Running(api, tasks', es', c)
    ensures fresh(api.failLim.owner.Keys - old(api.failLim.owner.Keys))
    ensures Done(i, !tasks[i].found, old(Now(api, tasks, es)), Now(api, tasks', es'))
  {
    hide Limiter.Valid, Store.Store.Valid, Legal, InTune, Without, CallsOf;
    var ip := tasks[i].ip;
    if !tasks[i].found { var status := api.WriteGone(ip, tasks[i].gone); }
    ghost var at := api.failLim.clock.time;
    ghost var e := if tasks[i].found then Finish(ip, at) else Fail(ip, at);
    tasks', es' := Without(tasks, i), es + [e];
    TaskDone(api, i, tasks, es, e, c);
  }

  method ActLeave(api: Api, i: nat, tasks: seq<Task>, ghost es: seq<Step>, c: nat)
    returns (tasks': seq<Task>, ghost es': seq<Step>)
    requires Running(api, tasks, es, c) && i < |tasks| && tasks[i].Admitted?
    ensures Running(api, tasks', es', c)
    ensures Done(i, false, old(Now(api, tasks, es)), Now(api, tasks', es'))
  {
    hide Limiter.Valid, Store.Store.Valid, Legal, InTune, Without, CallsOf;
    ghost var e := Finish(tasks[i].ip, api.failLim.clock.time);
    tasks', es' := Without(tasks, i), es + [e];
    TaskDone(api, i, tasks, es, e, c);
  }

  /** The store's part of a handler. */
  method Ask(api: Api, ip: string, op: StoreSpec.Op, id: StoreSpec.Id) returns (t: Task)
    requires api.store.Valid()
    modifies api.store, api.store.clock, api.store.held, api.store.owner.Keys
    ensures api.store.Valid()
    ensures api.store.held <= old(api.store.held) && api.store.owner.Keys <= old(api.store.owner.Keys)
    ensures |api.store.events| == |old(api.store.events)| + 1
    ensures api.store.events[..|old(api.store.events)|] == old(api.store.events)
    ensures Matches(Lookup(op, id), api.store.events[|old(api.store.events)|])
    ensures t.ip == ip && t.Answered? && AnswerIs(api.store.events[|old(api.store.events)|].answer, t)
  {
    hide Store.Store.Valid, Store.Zeroed;
    match op {
      case Take =>
        var r, gone := Read(api.store, id);
        t := Answered(ip, r != null, gone);
        assert Matches([Lookup(op, id)][0], api.store.events[|old(api.store.events)| + 0]);
      case Peek =>
        ghost var answer;
        var entry, gone;
        entry, gone, answer := api.AskPeek(id);
        t := Answered(ip, entry != null, gone);
      case Revoke =>
        ghost var answer;
        var revoked, gone;
        revoked, gone, answer := api.AskRevoke(id);
        t := Answered(ip, revoked, gone);
    }
  }

  /** A header without a well-formed token: the handler ends before it asks the store. */
  method ActRefuse(api: Api, i: nat, op: StoreSpec.Op, header: string, tasks: seq<Task>, ghost es: seq<Step>, c: nat)
    returns (raw: Option<seq<byte>>, tasks': seq<Task>, ghost es': seq<Step>)
    requires Running(api, tasks, es, c) && i < |tasks| && tasks[i].Admitted?
    modifies api.failLim, api.failLim.clock, api.failLim.owner.Keys
    ensures Running(api, tasks', es', c)
    ensures fresh(api.failLim.owner.Keys - old(api.failLim.owner.Keys))
    ensures raw == if WellFormed(header) then Some(Tokens.ParseToken(header).value) else None
    ensures raw.Some? ==> Now(api, tasks', es') == old(Now(api, tasks, es))
    ensures raw == None ==>
              LookedUp(RulesOf(api, c), i, op, header, old(Now(api, tasks, es)), Now(api, tasks', es'))
  {
    hide Limiter.Valid, Store.Store.Valid, Legal, InTune, Without, CallsOf, Tokens.ParseToken, AnswerIs, Matches;
    tasks', es' := tasks, es;
    var ip := tasks[i].ip;
    var status;
    raw, status := api.TokenFrom(ip, header);
    if raw == None {
      ghost var at := api.failLim.clock.time;
      ghost var e := if header == "" then Finish(ip, at) else Fail(ip, at);
      tasks', es' := Without(tasks, i), es + [e];
      TaskDone(api, i, tasks, es, e, c);
    }
  }

  method ActLookUp(api: Api, i: nat, op: StoreSpec.Op, header: string, tasks: seq<Task>, ghost es: seq<Step>, c: nat)
    returns (tasks': seq<Task>, ghost es': seq<Step>)
    requires Running(api, tasks, es, c) && i < |tasks| && tasks[i].Admitted?
    modifies api.failLim, api.failLim.clock, api.failLim.owner.Keys
    modifies api.store, api.store.clock, api.store.held, api.store.owner.Keys
    ensures Running(api, tasks', es', c)
    ensures fresh(api.failLim.owner.Keys - old(api.failLim.owner.Keys))
    ensures api.store.held <= old(api.store.held) && api.store.owner.Keys <= old(api.store.owner.Keys)
    ensures LookedUp(RulesOf(api, c), i, op, header, old(Now(api, tasks, es)), Now(api, tasks', es'))
  {
    hide Limiter.Valid, Store.Store.Valid, Tracked, InTune, Without, Tokens.ParseToken, AnswerIs, Matches;
    var raw;
    raw, tasks', es' := ActRefuse(api, i, op, header, tasks, es, c);
    if raw.Some? {
      var t := Ask(api, tasks[i].ip, op, api.lookupID(raw.value));
      TuneSame(es, tasks, i, t);
      tasks' := tasks[i := t];
    }
  }

  method ActOther(api: Api, request: Request, tasks: seq<Task>, ghost es: seq<Step>, c: nat)
    requires Running(api, tasks, es, c)
    modifies api.store, api.store.clock, api.store.held, api.store.owner.Keys
    ensures Running(api, tasks, es, c)
    ensures fresh(api.store.held - old(api.store.held)) && fresh(api.store.owner.Keys - old(api.store.owner.Keys))
    ensures Acted(RulesOf(api, c), Other(request), old(Now(api, tasks, es)), Now(api, tasks, es))
  {
    hide Limiter.Valid, Store.Store.Valid, Legal, InTune, OthersStay;
    Serve(api.store, request);
    assert Matches([request][0], api.store.events[|old(api.store.events)| + 0]);
  }

  /** The buckets, entries and arrays of a server. */
  ghost function Parts(api: Api): set<object>
    reads api.limiter, api.failLim, api.store
  {
    api.limiter.owner.Keys + api.failLim.owner.Keys + api.store.held + api.store.owner.Keys
  }

  lemma PartsHold(api: Api)
    ensures api.limiter.owner.Keys <= Parts(api) && api.failLim.owner.Keys <= Parts(api)
    ensures api.store.held <= Parts(api) && api.store.owner.Keys <= Parts(api)
  {}

  twostate lemma PartsGrow(api: Api)
    requires fresh(api.limiter.owner.Keys - old(api.limiter.owner.Keys))
    requires fresh(api.failLim.owner.Keys - old(api.failLim.owner.Keys))
    requires fresh(api.store.held - old(api.store.held)) && fresh(api.store.owner.Keys - old(api.store.owner.Keys))
    ensures fresh(Parts(api) - old(Parts(api)))
  {}

  /** An action on task `i`; if it does not apply to the task, it does nothing. */
  method ActTask(api: Api, action: Action, tasks: seq<Task>, ghost es: seq<Step>, c: nat)
    returns (tasks': seq<Task>, ghost es': seq<Step>)
    requires Running(api, tasks, es, c) && !action.Arrive? && !action.Other?
    modifies api.failLim, api.failLim.clock, api.failLim.owner.Keys
    modifies api.store, api.store.clock, api.store.held, api.store.owner.Keys
    ensures Running(api, tasks', es', c)
    ensures fresh(api.failLim.owner.Keys - old(api.failLim.owner.Keys))
    ensures api.store.held <= old(api.store.held) && api.store.owner.Keys <= old(api.store.owner.Keys)
    ensures Acted(RulesOf(api, c), action, old(Now(api, tasks, es)), Now(api, tasks', es'))
  {
    hide Running, Checked, LookedUp, Done;
    tasks', es' := tasks, es;
    match action
    case Check(i) => tasks', es' := ActCheck(api, i, tasks, es, c);
    case LookUp(i, op, header) =>
      if i < |tasks| && tasks[i].Admitted? { tasks', es' := ActLookUp(api, i, op, header, tasks, es, c); }
    case Report(i) =>
      if i < |tasks| && tasks[i].Answered? { tasks', es' := ActReport(api, i, tasks, es, c); }
    case Leave(i) =>
      if i < |tasks| && tasks[i].Admitted? { tasks', es' := ActLeave(api, i, tasks, es, c); }
  }

  /** One action of the schedule. */
  method Act(api: Api, action: Action, tasks: seq<Task>, ghost es: seq<Step>, c: nat)
    returns (tasks': seq<Task>, ghost es': seq<Step>)
    requires Running(api, tasks, es, c)
    modifies api.limiter, api.limiter.clock, api.failLim, api.failLim.clock, api.store, api.store.clock, Parts(api)
    ensures Running(api, tasks', es', c) && fresh(Parts(api) - old(Parts(api)))
    ensures Acted(RulesOf(api, c), action, old(Now(api, tasks, es)), Now(api, tasks', es'))
  {
    PartsHold(api);
    hide Running, Parts, Acted;
    tasks', es' := tasks, es;
    match action {
      case Arrive(ip) => tasks' := ActArrive(api, ip, tasks, es, c);
      case Other(request) => ActOther(api, request, tasks, es, c);
      case _ => tasks', es' := ActTask(api, action, tasks, es, c);
    }
    PartsGrow(api);
  }

  // ----- schedules -----

  /** The configurations before, between and after the actions of a schedule, each the outcome of its action. */
  ghost predicate Trail(r: Rules, schedule: seq<Action>, ks: seq<Config>) {
    |ks| == |schedule| + 1 && forall i :: 0 <= i < |schedule| ==> Acted(r, schedule[i], ks[i], ks[i + 1])
  }

  lemma TrailOn(r: Rules, schedule: seq<Action>, k: Config, ks: seq<Config>)
    requires schedule != [] && Trail(r, schedule[1..], ks) && Acted(r, schedule[0], k, ks[0])
    ensures Trail(r, schedule, [k] + ks)
  {
    hide Acted;
    forall i | 0 <= i < |schedule|
      ensures Acted(r, schedule[i], ([k] + ks)[i], ([k] + ks)[i + 1])
    {
      if i > 0 { assert Acted(r, schedule[1..][i - 1], ks[i - 1], ks[i]); }
    }
  }

  lemma TrailEnds(r: Rules, k: Config)
    ensures Trail(r, [], [k])
  {}

  /**
   * Any schedule: every action has exactly its outcome, and the server is left running, so the steps that
   * the schedule made are legal and what the failure limiter was asked is exactly the calls of those steps.
   */
  method Drive(api: Api, schedule: seq<Action>, tasks: seq<Task>, ghost es: seq<Step>, c: nat)
    returns (tasks': seq<Task>, ghost es': seq<Step>, ghost ks: seq<Config>)
    requires Running(api, tasks, es, c)
    modifies api.limiter, api.limiter.clock, api.failLim, api.failLim.clock, api.store, api.store.clock, Parts(api)
    ensures Running(api, tasks', es', c)
    ensures Trail(RulesOf(api, c), schedule, ks)
    ensures ks[0] == old(Now(api, tasks, es)) && ks[|schedule|] == Now(api, tasks', es')
    decreases |schedule|
  {
    hide Running, Acted, Parts;
    tasks', es' := tasks, es;
    ghost var r, k := RulesOf(api, c), Now(api, tasks, es);
    if schedule == [] {
      ks := [k];
      TrailEnds(r, k);
    } else {
      tasks', es' := Act(api, schedule[0], tasks, es, c);
      tasks', es', ks := Drive(api, schedule[1..], tasks', es', c);
      TrailOn(r, schedule, k, ks);
      ks := [k] + ks;
    }
  }

  // ----- from a fresh server -----

  lemma Starts(api: Api, c: nat)
    requires api.LimitersValid() && api.store.Valid() && api.failLim.calls == api.limiter.calls == []
    ensures Running(api, [], [], c)
  {
    hide Api.LimitersValid, Store.Store.Valid;
  }

  /** From the i-th to the (j-1)-th charge no more than the burst, the slack and what accrued meanwhile. */
  ghost predicate WithinWindow(p: Params, cs: seq<real>, i: nat, j: nat, slack: nat) {
    i < j <= |cs| ==> (j - i) as real <= p.burst + slack as real + p.rate * (cs[j - 1] - cs[i])
  }

  /** What every address is held to: its failure balance and charges, and its admissions by the general limiter. */
  ghost predicate Bounded(general: Params, failure: Params, asked: seq<Call>, charged: seq<Call>, now: real, c: nat) {
    && (forall ip :: Level(failure, Charges(failure, charged, ip), now) >= -(c as real))
    && (forall ip, i: nat, j: nat :: WithinWindow(failure, Charges(failure, charged, ip), i, j, c))
    && (forall ip, i: nat, j: nat :: WithinWindow(general, Admissions(general, asked, ip), i, j, 0))
  }

  lemma FailuresWithin(p: Params, es: seq<Step>, c: nat, ip: Key, now: real, i: nat, j: nat)
    requires p.Valid() && Legal(p, es, c) && (es != [] ==> es[|es| - 1].at <= now)
    ensures WithinWindow(p, Charges(p, CallsOf(es), ip), i, j, c)
  {
    hide Legal, Charges, CallsOf, Level;
    var cs := Charges(p, CallsOf(es), ip);
    if i < j <= |cs| {
      var d := cs[j - 1] - cs[i];
      LimiterWithinBudget(p, es, c, ip, now, i, j, d);
      assert (j - i) as real <= p.burst + c as real + p.rate * d;
    }
  }

  lemma AdmissionsWithin(p: Params, calls: seq<Call>, ip: Key, i: nat, j: nat)
    requires p.Valid() && Timely(calls) && OnlyAsked(calls)
    ensures WithinWindow(p, Admissions(p, calls, ip), i, j, 0)
  {
    hide Admissions, Charges;
    var cs := Admissions(p, calls, ip);
    if i < j <= |cs| {
      var d := cs[j - 1] - cs[i];
      AdmissionsInWindow(p, calls, ip, i, j, d);
      assert (j - i) as real <= p.burst + p.rate * d;
    }
  }

  /** A server that runs keeps every address within its bounds. */
  lemma RunningIsBounded(api: Api, tasks: seq<Task>, es: seq<Step>, c: nat)
    requires Running(api, tasks, es, c)
    ensures Bounded(api.limiter.params, api.failLim.params, api.limiter.calls, api.failLim.calls,
                    api.failLim.clock.time, c)
  {
    var p, f, now := api.limiter.params, api.failLim.params, api.failLim.clock.time;
    assert p.Valid() && f.Valid() && Timely(api.limiter.calls);
    hide Running, Legal, Level, Charges, Admissions, CallsOf, WithinWindow, OnlyAsked, Timely;
    RunningFacts(api, tasks, es, c);
    forall ip
      ensures Level(f, Charges(f, CallsOf(es), ip), now) >= -(c as real)
    {
      LimiterWithinBudget(f, es, c, ip, now, 0, 0, 0.0);
    }
    forall ip, i: nat, j: nat
      ensures WithinWindow(f, Charges(f, CallsOf(es), ip), i, j, c)
    {
      FailuresWithin(f, es, c, ip, now, i, j);
    }
    forall ip, i: nat, j: nat
      ensures WithinWindow(p, Admissions(p, api.limiter.calls, ip), i, j, 0)
    {
      AdmissionsWithin(p, api.limiter.calls, ip, i, j);
    }
  }

  lemma RunningFacts(api: Api, tasks: seq<Task>, es: seq<Step>, c: nat)
    requires Running(api, tasks, es, c)
    ensures Legal(api.failLim.params, es, c) && api.failLim.calls == CallsOf(es) && OnlyAsked(api.limiter.calls)
    ensures es != [] ==> es[|es| - 1].at <= api.failLim.clock.time
  {
    hide Legal, CallsOf, OnlyAsked;
  }

  /**
   * A fresh server driven by any schedule: at its end no failure balance is below -c, and in every window
   * of length d no address was charged more than burst + c + rate * d failures, nor let through by the
   * general limiter more than burst + rate * d times.
   */
  method DriveFresh(api: Api, schedule: seq<Action>, c: nat) returns (tasks: seq<Task>, ghost ks: seq<Config>)
    requires api.LimitersValid() && api.store.Valid() && api.failLim.calls == api.limiter.calls == []
    modifies api.limiter, api.limiter.clock, api.failLim, api.failLim.clock, api.store, api.store.clock, Parts(api)
    ensures Trail(RulesOf(api, c), schedule, ks) && ks[0] == old(Now(api, [], []))
    ensures ks[|schedule|].tasks == tasks
    ensures Legal(api.failLim.params, ks[|schedule|].steps, c) && api.failLim.calls == CallsOf(ks[|schedule|].steps)
    ensures Bounded(api.limiter.params, api.failLim.params, api.limiter.calls, api.failLim.calls,
                    api.failLim.clock.time, c)
  {
    Starts(api, c);
    hide Running, Trail, Parts, Legal, CallsOf, Bounded;
    ghost var es;
    tasks, es, ks := Drive(api, schedule, [], [], c);
    RunningFacts(api, tasks, es, c);
    RunningIsBounded(api, tasks, es, c);
  }
}
