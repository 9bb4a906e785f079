/** The broker's request handlers as interleaved steps over Tiller's store: each step makes one remote
    request, so a check and the act that follows it are separate steps. */
module Lifecycle {
  import opened Outcomes
  import opened Text
  import opened StatusReport
  import opened Tiller
  import Names
  import Polling

  datatype Op =
    | Provision(id: string, namespace: string, values: map<string, string>)
    | Update(id: string, values: map<string, string>)
    | Deprovision(id: string)
    | Bind(id: string)
    | Unbind(id: string)
    | LastOperation(id: string)

  /** `Crashed` is a run-time error; `Polled` carries the state told to a polling platform. */
  datatype Answer = Okay | AlreadyExists | DoesNotExist | Error | Crashed | Polled(state: Polling.PollState)

  /** `Start`: nothing requested yet. `Checked`: the first request was answered. `Listing`: an upgrade
      was refused, and the release is looked for in a listing. */
  datatype Phase = Start | Checked | Listing | Done(answer: Answer)

  datatype Handler = Handler(op: Op, phase: Phase)

  /** How the handler's own work besides its requests (decoding, catalog, chart, values) ends: well, with
      an error, or with a run-time error. */
  datatype Work = Prepared | Rejected | Broken

  /** What the environment decides in a step: how the request fails, how the handler's own work ends, and
      what the cluster and the clock say about a release. */
  datatype Env = Env(fault: Fault, work: Work, cluster: Polling.Cluster)

  function NameOf(op: Op): Outcome<string> {
    Names.GetName(op.id)
  }

  /** Updating and binding decode their parameters before they name the release. */
  predicate DecodesFirst(op: Op) {
    op.Update? || op.Bind?
  }

  /** One step of one handler. */
  function StepHandler(store: Store, h: Handler, env: Env): (Store, Handler) {
    if h.phase.Done? then
      (store, h)
    else if NameOf(h.op).Panic? then
      (store, h.(phase := Done(if DecodesFirst(h.op) && env.work.Rejected? then Error else Crashed)))
    else
      var name := NameOf(h.op).value;
      match h.phase
      case Start => (store, h.(phase := AfterCheck(h.op, name, Lookup(store, name, env.fault), env)))
      case Checked => Act(store, h, name, env)
      case Listing => (store, h.(phase := Done(AfterListing(store, name, env.fault))))
      case Done(_) => (store, h)
  }

  /** The status of a release that was looked up; reading its report may end in a run-time error. */
  function StatusOfReply(name: string, revision: Revision, env: Env): Outcome<Status> {
    Polling.ReplyStatus(name, revision.namespace, revision.code, env.cluster)
  }

  function AfterWork(work: Work): Phase {
    match work
    case Prepared => Checked
    case Rejected => Done(Error)
    case Broken => Done(Crashed)
  }

  /** Where the first lookup leads. */
  function AfterCheck(op: Op, name: string, reply: Reply, env: Env): Phase {
    match op
    case Provision(_, _, _) => if reply.Granted? then Done(AlreadyExists) else AfterWork(env.work)
    case Update(_, _) =>
      if env.work.Broken? then Done(Crashed) else if reply.Granted? then AfterWork(env.work) else Done(Error)
    case Deprovision(_) => if SaysMissing(reply) then Done(DoesNotExist) else Checked
    case Bind(_) =>
      if env.work.Rejected? || !reply.Granted? then Done(Error)
      else if env.work.Broken? || StatusOfReply(name, reply.revision, env).Panic? then Done(Crashed)
      else Done(Okay)
    case Unbind(_) => Done(if reply.Granted? || SaysMissing(reply) then Okay else Error)
    case LastOperation(_) => if reply.Granted? then Done(PollAnswer(name, reply.revision, env)) else Checked
  }

  /** The answer to a poll that found the release. */
  function PollAnswer(name: string, revision: Revision, env: Env): Answer {
    var status := StatusOfReply(name, revision, env);
    if status.Panic? then Crashed else Polled(Polling.Poll(Polling.AsWritten(status.value)))
  }

  /** The second request. */
  function Act(store: Store, h: Handler, name: string, env: Env): (Store, Handler) {
    match h.op
    case Provision(_, namespace, values) =>
      var result := Install(store, name, namespace, values, env.fault);
      (result.0, h.(phase := Done(if result.1.Granted? then Okay else Error)))
    case Update(_, values) =>
      var result := Upgrade(store, name, values, env.fault);
      (result.0, h.(phase := if result.1.Granted? then Done(Okay) else Listing))
    case Deprovision(_) =>
      var result := Purge(store, name, env.fault);
      (result.0, h.(phase := Done(if result.1.Granted? then Okay else Error)))
    case LastOperation(_) =>
      (store, h.(phase := Done(if SaysMissing(Lookup(store, name, env.fault)) then DoesNotExist else Error)))
    case _ => (store, h.(phase := Done(Error)))
  }

  /** After a refused upgrade, one listed revision counts as success. */
  function AfterListing(store: Store, name: string, fault: Fault): Answer {
    if fault == NoFault && |Listed(store, name)| == 1 then Okay else Error
  }

  // ---------- the system ----------

  datatype System = System(store: Store, handlers: map<nat, Handler>)

  /** A handler's step, or somebody else changing a history: `None` removes it. */
  datatype Event = Step(handler: nat, env: Env) | Outside(name: string, history: Option<History>)

  function Next(s: System, e: Event): System {
    match e
    case Step(i, env) =>
      if i in s.handlers then
        var result := StepHandler(s.store, s.handlers[i], env);
        System(result.0, s.handlers[i := result.1])
      else
        s
    case Outside(name, history) =>
      s.(store := if history.Some? then s.store[name := history.value] else s.store - {name})
  }

  function Run(s: System, es: seq<Event>): System
    decreases |es|
  {
    if es == [] then s else Next(Run(s, es[..|es| - 1]), es[|es| - 1])
  }

  // ---------- framing ----------

  /** The release an event is about. */
  function Owner(handlers: map<nat, Handler>, e: Event): Option<string> {
    match e
    case Step(i, _) =>
      if i in handlers && NameOf(handlers[i].op).Return? then Some(NameOf(handlers[i].op).value) else None
    case Outside(name, _) => Some(name)
  }

  predicate SameOps(a: map<nat, Handler>, b: map<nat, Handler>) {
    a.Keys == b.Keys && forall i :: i in a ==> a[i].op == b[i].op
  }

  /** A step changes at most the history of its own release, and one handler's phase. */
  lemma StepFrame(s: System, e: Event, name: string)
    ensures Owner(s.handlers, e) != Some(name) ==> HistoryOf(Next(s, e).store, name) == HistoryOf(s.store, name)
    ensures SameOps(s.handlers, Next(s, e).handlers)
    ensures forall i :: i in s.handlers && (e.Outside? || e.handler != i) ==>
              Next(s, e).handlers[i] == s.handlers[i]
  {
  }

  lemma {:induction false} RunKeepsOps(s: System, es: seq<Event>)
    ensures SameOps(s.handlers, Run(s, es).handlers)
    decreases |es|
  {
    if es != [] {
      RunKeepsOps(s, es[..|es| - 1]);
      StepFrame(Run(s, es[..|es| - 1]), es[|es| - 1], "");
    }
  }

  // ---------- isolation ----------

  /** The events about one release. */
  function Only(es: seq<Event>, handlers: map<nat, Handler>, name: string): seq<Event> {
    if es == [] then
      []
    else
      var rest := Only(es[..|es| - 1], handlers, name);
      if Owner(handlers, es[|es| - 1]) == Some(name) then rest + [es[|es| - 1]] else rest
  }

  predicate Owns(h: Handler, name: string) {
    NameOf(h.op) == Return(name)
  }

  /** The release's history is the same, and its handlers have got equally far: their phases differ at
      most in the final answers. */
  predicate SameRecords(a: System, b: System, name: string) {
    && HistoryOf(a.store, name) == HistoryOf(b.store, name)
    && SameOps(a.handlers, b.handlers)
    && forall i :: i in a.handlers && Owns(a.handlers[i], name) ==>
                     (a.handlers[i] == b.handlers[i] || (a.handlers[i].phase.Done? && b.handlers[i].phase.Done?))
  }

  lemma SameAct(a: Store, b: Store, h: Handler, env: Env, name: string)
    requires HistoryOf(a, name) == HistoryOf(b, name)
    ensures Act(a, h, name, env).1 == Act(b, h, name, env).1
    ensures HistoryOf(Act(a, h, name, env).0, name) == HistoryOf(Act(b, h, name, env).0, name)
  {
    assert name in a <==> name in b;
  }

  /** A listing is the only request whose answer depends on other releases, and it ends its handler
      without changing anything. */
  lemma SameStep(a: Store, b: Store, h: Handler, env: Env, name: string)
    requires HistoryOf(a, name) == HistoryOf(b, name) && Owns(h, name)
    ensures HistoryOf(StepHandler(a, h, env).0, name) == HistoryOf(StepHandler(b, h, env).0, name)
    ensures h.phase == Listing ==>
              StepHandler(a, h, env).1.phase.Done? && StepHandler(b, h, env).1.phase.Done?
    ensures h.phase != Listing ==> StepHandler(a, h, env).1 == StepHandler(b, h, env).1
  {
    SameAct(a, b, h, env, name);
    assert name in a <==> name in b;
    assert Lookup(a, name, env.fault) == Lookup(b, name, env.fault);
  }

  lemma OwnStepKeepsRecords(a: System, b: System, e: Event, name: string)
    requires SameRecords(a, b, name) && Owner(a.handlers, e) == Some(name)
    ensures SameRecords(Next(a, e), Next(b, e), name)
  {
    if e.Step? {
      assert Owns(a.handlers[e.handler], name);
      StepOpsFrame(a, e);
      StepOpsFrame(b, e);
      SameStep(a.store, b.store, a.handlers[e.handler], e.env, name);
    }
  }

  lemma StepOpsFrame(s: System, e: Event)
    requires e.Step? && e.handler in s.handlers
    ensures SameOps(s.handlers, Next(s, e).handlers)
    ensures s.handlers[e.handler].phase.Done? ==> Next(s, e) == s
  {
    assert s.handlers[e.handler].phase.Done? ==> s.handlers[e.handler := s.handlers[e.handler]] == s.handlers;
  }

  lemma OtherStepKeepsRecords(a: System, b: System, e: Event, name: string)
    requires SameRecords(a, b, name) && Owner(a.handlers, e) != Some(name)
    ensures SameRecords(Next(a, e), b, name)
  {
    StepFrame(a, e, name);
  }

  /** Isolation: in any interleaving of any handlers and outside changes, a release's history ends up
      exactly as if only the events about it had happened, and its handlers get equally far. */
  lemma {:induction false} Isolation(s: System, es: seq<Event>, name: string)
    ensures SameRecords(Run(s, es), Run(s, Only(es, s.handlers, name)), name)
    decreases |es|
  {
    if es != [] {
      var init, e := es[..|es| - 1], es[|es| - 1];
      var own, ownInit := Only(es, s.handlers, name), Only(init, s.handlers, name);
      Isolation(s, init, name);
      RunKeepsOps(s, init);
      var a, b := Run(s, init), Run(s, ownInit);
      assert Owner(a.handlers, e) == Owner(s.handlers, e);
      if Owner(s.handlers, e) == Some(name) {
        OwnStepKeepsRecords(a, b, e, name);
        assert own[..|own| - 1] == ownInit;
      } else {
        OtherStepKeepsRecords(a, b, e, name);
      }
    }
  }

  // ---------- the answers ----------

  /** No revision that is shown of another release, in this store, has a name that this one matches. */
  predicate Alone(store: Store, name: string) {
    forall m, v: nat :: m in store && m != name && v < |store[m]| && Shown(store[m][v].code) ==> !Matches(m, name)
  }

  /** Without the other releases a listing would be answered alike, exactly if no other revision is listed
      besides a single own one, and not exactly one in place of none. */
  lemma ListingAnswerIsolated(store: Store, name: string)
    ensures AfterListing(store, name, NoFault) == AfterListing(Restrict(store, name), name, NoFault) <==>
            && (|OwnListed(store, name)| == 1 ==> Alone(store, name))
            && (|OwnListed(store, name)| == 0 ==> |ForeignListed(store, name)| != 1)
  {
    ListingShowsOneExactly(store, name);
  }

  lemma SameListing(a: Store, b: Store, name: string, fault: Fault)
    requires HistoryOf(a, name) == HistoryOf(b, name) && Alone(a, name) && Alone(b, name)
    ensures AfterListing(a, name, fault) == AfterListing(b, name, fault)
  {
    ListingShowsOneExactly(a, name);
    ListingShowsOneExactly(b, name);
    assert name in a <==> name in b;
    assert Restrict(a, name) == Restrict(b, name);
  }

  /** Two systems look the same from one release, answers included. */
  predicate SameView(a: System, b: System, name: string) {
    && SameRecords(a, b, name)
    && forall i :: i in a.handlers && Owns(a.handlers[i], name) ==> a.handlers[i] == b.handlers[i]
  }

  lemma OwnStepKeepsView(a: System, b: System, e: Event, name: string)
    requires SameView(a, b, name) && Alone(a.store, name) && Alone(b.store, name)
    requires Owner(a.handlers, e) == Some(name)
    ensures SameView(Next(a, e), Next(b, e), name)
  {
    OwnStepKeepsRecords(a, b, e, name);
    if e.Step? {
      var h := a.handlers[e.handler];
      assert Owns(h, name);
      SameStep(a.store, b.store, h, e.env, name);
      SameListing(a.store, b.store, name, e.env.fault);
    }
  }

  lemma OtherStepKeepsView(a: System, b: System, e: Event, name: string)
    requires SameView(a, b, name) && Owner(a.handlers, e) != Some(name)
    ensures SameView(Next(a, e), b, name)
  {
    OtherStepKeepsRecords(a, b, e, name);
    StepFrame(a, e, name);
  }

  /** `m` may be the name of a release at some point of the run. */
  predicate InPlay(s: System, es: seq<Event>, m: string) {
    || m in s.store
    || (exists i :: i in s.handlers && Owns(s.handlers[i], m))
    || (exists k :: 0 <= k < |es| && es[k].Outside? && es[k].name == m)
  }

  /** This name matches no other name in play. */
  ghost predicate Apart(s: System, es: seq<Event>, name: string) {
    forall m :: InPlay(s, es, m) && m != name ==> !Matches(m, name)
  }

  lemma StoredNames(s: System, e: Event, m: string)
    requires m in Next(s, e).store
    ensures m in s.store || Owner(s.handlers, e) == Some(m)
  {
  }

  lemma {:induction false} StoredIsInPlay(s: System, es: seq<Event>, m: string)
    requires m in Run(s, es).store
    ensures InPlay(s, es, m)
    decreases |es|
  {
    if es != [] {
      var init, e := es[..|es| - 1], es[|es| - 1];
      RunKeepsOps(s, init);
      StoredNames(Run(s, init), e, m);
      if m in Run(s, init).store {
        StoredIsInPlay(s, init, m);
        PlayGrows(s, init, es, m);
      } else if e.Step? {
        assert Owns(s.handlers[e.handler], m);
      } else {
        assert es[|es| - 1].name == m;
      }
    }
  }

  lemma PlayGrows(s: System, part: seq<Event>, es: seq<Event>, m: string)
    requires InPlay(s, part, m) && forall e :: e in part ==> e in es
    ensures InPlay(s, es, m)
  {
    if k :| 0 <= k < |part| && part[k].Outside? && part[k].name == m {
      assert part[k] in es;
    }
  }

  lemma ApartIsAlone(s: System, part: seq<Event>, es: seq<Event>, name: string)
    requires Apart(s, es, name) && forall e :: e in part ==> e in es
    ensures Alone(Run(s, part).store, name)
  {
    forall m | m in Run(s, part).store && m != name
      ensures !Matches(m, name)
    {
      StoredIsInPlay(s, part, m);
      PlayGrows(s, part, es, m);
    }
  }

  lemma {:induction false} OnlyIsPart(es: seq<Event>, handlers: map<nat, Handler>, name: string)
    ensures forall e :: e in Only(es, handlers, name) ==> e in es
    decreases |es|
  {
    if es != [] {
      OnlyIsPart(es[..|es| - 1], handlers, name);
    }
  }

  lemma {:induction false} AnswersIsolatedIn(s: System, es: seq<Event>, all: seq<Event>, name: string)
    requires Apart(s, all, name) && forall e :: e in es ==> e in all
    ensures SameView(Run(s, es), Run(s, Only(es, s.handlers, name)), name)
    decreases |es|
  {
    if es != [] {
      var init, e := es[..|es| - 1], es[|es| - 1];
      var own, ownInit := Only(es, s.handlers, name), Only(init, s.handlers, name);
      AnswersIsolatedIn(s, init, all, name);
      RunKeepsOps(s, init);
      var a, b := Run(s, init), Run(s, ownInit);
      assert Owner(a.handlers, e) == Owner(s.handlers, e);
      if Owner(s.handlers, e) == Some(name) {
        OnlyIsPart(init, s.handlers, name);
        ApartIsAlone(s, init, all, name);
        ApartIsAlone(s, ownInit, all, name);
        OwnStepKeepsView(a, b, e, name);
        assert own[..|own| - 1] == ownInit;
      } else {
        OtherStepKeepsView(a, b, e, name);
      }
    }
  }

  /** The answers are isolated too, as long as this name matches no other name in play. */
  lemma AnswersIsolated(s: System, es: seq<Event>, name: string)
    requires Apart(s, es, name)
    ensures SameView(Run(s, es), Run(s, Only(es, s.handlers, name)), name)
  {
    AnswersIsolatedIn(s, es, es, name);
  }

  ghost predicate Generated(name: string) {
    exists id :: !HasPrefix(id, Names.PREFIX) && Names.GetName(id) == Return(name)
  }

  lemma GeneratedShape(name: string)
    requires Generated(name)
    ensures |name| == |Names.PREFIX| + Names.KEPT && HasPrefix(name, Names.PREFIX)
  {
    var id :| !HasPrefix(id, Names.PREFIX) && Names.GetName(id) == Return(name);
    Names.NameShape(id);
  }

  /** The second generated name matches the first exactly if the kept characters agree wherever the second
      has no dot, and a dot does not meet a newline. */
  lemma GeneratedNamesMatch(m: string, name: string)
    requires Generated(m) && Generated(name)
    ensures |m| == |name|
    ensures Matches(m, name) <==> forall k :: |Names.PREFIX| <= k < |name| ==> Meets(m[k], name[k])
  {
    GeneratedShape(m);
    GeneratedShape(name);
    MatchOfSameLength(m, name);
    assert forall k :: 0 <= k < |Names.PREFIX| ==> m[k] == Names.PREFIX[k] && name[k] == Names.PREFIX[k];
  }

  lemma {:induction false} DifferAt(a: string, b: string) returns (k: nat)
    requires |a| == |b| && a != b
    ensures k < |a| && a[k] != b[k]
  {
    k := 0;
    if a[0] == b[0] {
      assert a == [a[0]] + a[1..] && b == [b[0]] + b[1..];
      k := DifferAt(a[1..], b[1..]);
      k := k + 1;
    }
  }

  /** So a generated name without dots matches no other generated name. */
  lemma GeneratedNamesApart(m: string, name: string)
    requires Generated(m) && Generated(name) && '.' !in name && m != name
    ensures !Matches(m, name)
  {
    GeneratedShape(m);
    GeneratedShape(name);
    MatchOfSameLength(m, name);
    var k := DifferAt(m, name);
    assert !Meets(m[k], name[k]);
  }

  /** Where all names in play are generated, an instance whose name has no dots is isolated from all
      others, answers included. */
  lemma GeneratedInstancesIsolated(s: System, es: seq<Event>, name: string)
    requires Generated(name) && '.' !in name
    requires forall m :: InPlay(s, es, m) ==> Generated(m)
    ensures SameView(Run(s, es), Run(s, Only(es, s.handlers, name)), name)
  {
    forall m | InPlay(s, es, m) && m != name
      ensures !Matches(m, name)
    {
      GeneratedNamesApart(m, name);
    }
    AnswersIsolated(s, es, name);
  }

  // ---------- answers that are not isolated ----------

  lemma RunSnoc(s: System, es: seq<Event>, e: Event)
    ensures Run(s, es + [e]) == Next(Run(s, es), e)
  {
    assert (es + [e])[..|es|] == es;
  }

  lemma {:induction false} RunAcross(s: System, a: seq<Event>, b: seq<Event>)
    ensures Run(s, a + b) == Run(Run(s, a), b)
    decreases |b|
  {
    if b == [] {
      assert a + b == a;
    } else {
      assert (a + b)[..|a + b| - 1] == a + b[..|b| - 1];
      RunAcross(s, a, b[..|b| - 1]);
    }
  }

  lemma OnlySnoc(es: seq<Event>, e: Event, handlers: map<nat, Handler>, name: string)
    ensures Only(es + [e], handlers, name) ==
            Only(es, handlers, name) + (if Owner(handlers, e) == Some(name) then [e] else [])
  {
    assert (es + [e])[..|es|] == es;
  }

  lemma ShownAlone(name: string, r: Revision)
    requires Shown(r.code)
    ensures AfterListing(map[name := [r]], name, NoFault) == Okay
  {
    MatchesSelf(name);
    assert Listed(map[name := [r]], name) == {(name, 0)};
  }

  lemma ShownInCompany(name: string, r: Revision, other: string, q: Revision)
    requires Shown(r.code) && Shown(q.code) && name != other && Matches(other, name)
    ensures AfterListing(map[name := [r], other := [q]], name, NoFault) == Error
  {
    MatchesSelf(name);
    var store: Store := map[name := [r], other := [q]];
    var own, foreign: (string, nat) := (name, 0), (other, 0);
    assert Listed(store, name) == {own, foreign};
    assert own != foreign;
  }

  const NO_CLUSTER := Polling.Cluster(Panic, 0, 0, 0)
  const SMOOTH := Env(NoFault, Prepared, NO_CLUSTER)
  const FAILING := Env(Before(""), Prepared, NO_CLUSTER)

  /** Update of `a` and provision of `b`, both at their start. */
  function UpdateAndProvision(a: string, b: string, name: string): System {
    System(map[name := [Revision(Deployed, "", map[])]],
           map[0 := Handler(Op.Update(a, map[]), Start), 1 := Handler(Op.Provision(b, "", map[]), Start)])
  }

  /** The upgrade is refused; then, or after the other instance is provisioned, it is looked up. */
  const REFUSED_UPGRADE := [Step(0, SMOOTH), Step(0, FAILING)]
  const OTHER_PROVISION := [Step(1, SMOOTH), Step(1, SMOOTH)]

  lemma RefusedUpgradeRuns(a: string, b: string, name: string)
    requires Names.GetName(a) == Return(name) && ValidName(name)
    ensures var s := UpdateAndProvision(a, b, name);
            Run(s, REFUSED_UPGRADE) == s.(handlers := s.handlers[0 := Handler(Op.Update(a, map[]), Listing)])
  {
    var s := UpdateAndProvision(a, b, name);
    RunSnoc(s, [], Step(0, SMOOTH));
    RunSnoc(s, [Step(0, SMOOTH)], Step(0, FAILING));
    assert [] + [Step(0, SMOOTH)] == [Step(0, SMOOTH)];
    assert [Step(0, SMOOTH)] + [Step(0, FAILING)] == REFUSED_UPGRADE;
  }

  lemma OtherProvisionRuns(s: System, b: string, other: string)
    requires 1 in s.handlers && s.handlers[1] == Handler(Op.Provision(b, "", map[]), Start)
    requires Names.GetName(b) == Return(other) && other !in s.store && Storable(other) && |other| <= MAX_NAME
    ensures Run(s, OTHER_PROVISION) ==
            System(s.store[other := [Revision(Deployed, "", map[])]],
                   s.handlers[1 := Handler(Op.Provision(b, "", map[]), Done(Okay))])
  {
    RunSnoc(s, [], Step(1, SMOOTH));
    RunSnoc(s, [Step(1, SMOOTH)], Step(1, SMOOTH));
    assert [] + [Step(1, SMOOTH)] == [Step(1, SMOOTH)];
    assert [Step(1, SMOOTH)] + [Step(1, SMOOTH)] == OTHER_PROVISION;
    var checked := Next(s, Step(1, SMOOTH));
    assert checked == s.(handlers := s.handlers[1 := Handler(Op.Provision(b, "", map[]), Checked)]);
    assert [] + [Revision(Deployed, "", map[])] == [Revision(Deployed, "", map[])];
    assert Next(checked, Step(1, SMOOTH)).handlers
           == s.handlers[1 := Handler(Op.Provision(b, "", map[]), Done(Okay))];
  }

  lemma BothStored(a: string, b: string, name: string, other: string)
    requires Names.GetName(a) == Return(name) && Names.GetName(b) == Return(other)
    requires ValidName(name) && Storable(other) && |other| <= MAX_NAME && name != other
    ensures var end, r := Run(UpdateAndProvision(a, b, name), REFUSED_UPGRADE + OTHER_PROVISION),
                          Revision(Deployed, "", map[]);
            && end.store == map[name := [r], other := [r]]
            && 0 in end.handlers && end.handlers[0] == Handler(Op.Update(a, map[]), Listing)
  {
    var s, r := UpdateAndProvision(a, b, name), Revision(Deployed, "", map[]);
    RefusedUpgradeRuns(a, b, name);
    OtherProvisionRuns(Run(s, REFUSED_UPGRADE), b, other);
    RunAcross(s, REFUSED_UPGRADE, OTHER_PROVISION);
    assert s.store[other := [r]] == map[name := [r], other := [r]];
  }

  lemma UpdateInCompany(a: string, b: string, name: string, other: string)
    requires Names.GetName(a) == Return(name) && Names.GetName(b) == Return(other)
    requires ValidName(name) && Storable(other) && |other| <= MAX_NAME && name != other && Matches(other, name)
    ensures var end := Run(UpdateAndProvision(a, b, name), REFUSED_UPGRADE + OTHER_PROVISION + [Step(0, SMOOTH)]);
            0 in end.handlers && end.handlers[0].phase == Done(Error)
  {
    BothStored(a, b, name, other);
    RunSnoc(UpdateAndProvision(a, b, name), REFUSED_UPGRADE + OTHER_PROVISION, Step(0, SMOOTH));
    ListingStep(Run(UpdateAndProvision(a, b, name), REFUSED_UPGRADE + OTHER_PROVISION), a, name);
    ShownInCompany(name, Revision(Deployed, "", map[]), other, Revision(Deployed, "", map[]));
  }

  lemma ListingStep(s: System, a: string, name: string)
    requires 0 in s.handlers && s.handlers[0] == Handler(Op.Update(a, map[]), Listing)
    requires Names.GetName(a) == Return(name)
    ensures 0 in Next(s, Step(0, SMOOTH)).handlers
    ensures Next(s, Step(0, SMOOTH)).handlers[0].phase == Done(AfterListing(s.store, name, NoFault))
  {
  }

  lemma UpdateAlone(a: string, b: string, name: string)
    requires Names.GetName(a) == Return(name) && ValidName(name)
    ensures var end := Run(UpdateAndProvision(a, b, name), REFUSED_UPGRADE + [Step(0, SMOOTH)]);
            0 in end.handlers && end.handlers[0].phase == Done(Okay)
  {
    RefusedUpgradeRuns(a, b, name);
    RunSnoc(UpdateAndProvision(a, b, name), REFUSED_UPGRADE, Step(0, SMOOTH));
    ListingStep(Run(UpdateAndProvision(a, b, name), REFUSED_UPGRADE), a, name);
    ShownAlone(name, Revision(Deployed, "", map[]));
  }

  /** An update answered "okay" when alone is answered with an error when an instance is provisioned
      meanwhile whose name the update's release name matches. */
  lemma OtherProvisionSpoilsUpdate(a: string, b: string, name: string, other: string)
    requires Names.GetName(a) == Return(name) && Names.GetName(b) == Return(other)
    requires ValidName(name) && Storable(other) && |other| <= MAX_NAME && name != other && Matches(other, name)
    ensures var s, es := UpdateAndProvision(a, b, name), REFUSED_UPGRADE + OTHER_PROVISION + [Step(0, SMOOTH)];
            var company, alone := Run(s, es), Run(s, Only(es, s.handlers, name));
            && 0 in company.handlers && company.handlers[0].phase == Done(Error)
            && 0 in alone.handlers && alone.handlers[0].phase == Done(Okay)
  {
    UpdateInCompany(a, b, name, other);
    UpdateAlone(a, b, name);
    OnlyUpdate(UpdateAndProvision(a, b, name).handlers, name);
  }

  lemma OnlyUpdate(handlers: map<nat, Handler>, name: string)
    requires 0 in handlers && Owns(handlers[0], name) && 1 in handlers && !Owns(handlers[1], name)
    ensures Only(REFUSED_UPGRADE + OTHER_PROVISION + [Step(0, SMOOTH)], handlers, name)
            == REFUSED_UPGRADE + [Step(0, SMOOTH)]
  {
    var u := REFUSED_UPGRADE;
    OnlySnoc([], u[0], handlers, name);
    OnlySnoc([u[0]], u[1], handlers, name);
    OnlySnoc(u, Step(1, SMOOTH), handlers, name);
    OnlySnoc(u + [Step(1, SMOOTH)], Step(1, SMOOTH), handlers, name);
    OnlySnoc(u + OTHER_PROVISION, Step(0, SMOOTH), handlers, name);
    assert [] + [u[0]] == [u[0]] && [u[0]] + [u[1]] == u;
    assert u + [Step(1, SMOOTH)] + [Step(1, SMOOTH)] == u + OTHER_PROVISION;
  }

  /** An id of 14 digits and small letters that does not start with the prefix. */
  predicate ShortId(id: string) {
    && |id| == Names.KEPT && !HasPrefix(id, Names.PREFIX)
    && forall i :: 0 <= i < |id| ==> LowerOrDigit(id[i])
  }

  /** The same with dots. */
  predicate DottedId(id: string) {
    && |id| == Names.KEPT && !HasPrefix(id, Names.PREFIX)
    && forall i :: 0 <= i < |id| ==> LowerOrDigit(id[i]) || id[i] == '.'
  }

  lemma DottedIdName(id: string)
    requires DottedId(id)
    ensures Names.GetName(id) == Return(Names.PREFIX + id)
  {
    assert '-' !in id && '_' !in id;
    Names.WithoutAbsent(id, '-');
    Names.WithoutAbsent(id, '_');
    Names.NormalIsLowered(id);
    assert ToLower(id) == id;
    assert id[..Names.KEPT] == id;
  }

  lemma ShortIdStorable(id: string, rest: string)
    requires ShortId(id) && (rest == "" || rest == "-2")
    ensures Storable(Names.PREFIX + (id + rest)) && |Names.PREFIX + (id + rest)| <= MAX_NAME
  {
    var name := Names.PREFIX + (id + rest);
    assert forall i :: 0 <= i < |Names.PREFIX| ==> LowerOrDigit(Names.PREFIX[i]);
    forall i | 0 <= i < |name|
      ensures LowerOrDigit(name[i]) || name[i] == '-'
    {
      assert name[i] == if i < |Names.PREFIX| then Names.PREFIX[i]
                        else if i < |Names.PREFIX| + |id| then id[i - |Names.PREFIX|]
                        else rest[i - |Names.PREFIX| - |id|];
    }
    assert name[|name| - 1] == if rest == "" then id[|id| - 1] else '2';
  }

  lemma SomeShortId()
    ensures ShortId("0123456789abcd")
  {
    assert Names.PREFIX[0] == 'h';
  }

  lemma PrefixedIdName(rest: string)
    ensures Names.GetName(Names.PREFIX + rest) == Return(Names.PREFIX + rest)
  {
  }

  /** A run in which the update of `id` is answered differently than alone. */
  predicate UpdateSpoiled(s: System, es: seq<Event>, id: string, name: string) {
    && 0 in s.handlers && s.handlers[0].op == Op.Update(id, map[]) && Owns(s.handlers[0], name)
    && var company, alone := Run(s, es), Run(s, Only(es, s.handlers, name));
       && 0 in company.handlers && company.handlers[0].phase == Done(Error)
       && 0 in alone.handlers && alone.handlers[0].phase == Done(Okay)
  }

  /** There are such ids, because an id that starts with the prefix is its own release name. */
  lemma AnswersNotIsolated(id: string) returns (s: System, es: seq<Event>, name: string)
    requires ShortId(id)
    ensures UpdateSpoiled(s, es, id, name)
  {
    DottedIdName(id);
    ShortIdStorable(id, "");
    ShortIdStorable(id, "-2");
    PrefixedIdName(id + "-2");
    name := Names.PREFIX + id;
    var other := Names.PREFIX + (id + "-2");
    assert id + "" == id;
    StorableIsValid(name);
    assert "" + name + "-2" == other;
    ContainsInfix("", name, "-2");
    MatchesOrContains(other, name);
    OtherProvisionSpoilsUpdate(id, other, name, other);
    s := UpdateAndProvision(id, other, name);
    es := REFUSED_UPGRADE + OTHER_PROVISION + [Step(0, SMOOTH)];
  }

  /** Generated names are not enough: an id with a dot in place of another id's character gets a name that
      does not occur in the other's, but matches it. */
  lemma DottedAnswersNotIsolated(id: string, k: nat) returns (s: System, es: seq<Event>, name: string)
    requires ShortId(id) && k < Names.KEPT - 1
    ensures UpdateSpoiled(s, es, id[k := '.'], name)
    ensures Storable(name) && !Contains(Names.PREFIX + id, name)
  {
    var dotted := id[k := '.'];
    DotMakesNoPrefix(id, k);
    DottedIdName(dotted);
    DottedIdName(id);
    ShortIdStorable(id, "");
    assert id + "" == id;
    name := Names.PREFIX + dotted;
    var other := Names.PREFIX + id;
    DottedNameStorable(id, k);
    StorableIsValid(name);
    DottedNameMatches(id, k);
    OtherProvisionSpoilsUpdate(dotted, id, name, other);
    s := UpdateAndProvision(dotted, id, name);
    es := REFUSED_UPGRADE + OTHER_PROVISION + [Step(0, SMOOTH)];
  }

  lemma DotMakesNoPrefix(id: string, k: nat)
    requires ShortId(id) && k < |id|
    ensures DottedId(id[k := '.'])
  {
    assert forall i :: 0 <= i < |Names.PREFIX| ==> LowerOrDigit(Names.PREFIX[i]);
    assert forall i :: 0 <= i < |id| && i != k ==> id[k := '.'][i] == id[i];
  }

  lemma DottedNameStorable(id: string, k: nat)
    requires ShortId(id) && k < Names.KEPT - 1
    ensures Storable(Names.PREFIX + id[k := '.']) && |Names.PREFIX + id[k := '.']| <= MAX_NAME
  {
    var n, name := |Names.PREFIX|, Names.PREFIX + id[k := '.'];
    assert forall i :: 0 <= i < n ==> LowerOrDigit(Names.PREFIX[i]);
    assert forall i :: 0 <= i < |name| && i != n + k ==>
             name[i] == (if i < n then Names.PREFIX[i] else id[i - n]) && LowerOrDigit(name[i]);
    assert DotBetween(name, n + k);
  }

  lemma DottedNameMatches(id: string, k: nat)
    requires ShortId(id) && k < Names.KEPT
    ensures Matches(Names.PREFIX + id, Names.PREFIX + id[k := '.'])
    ensures !Contains(Names.PREFIX + id, Names.PREFIX + id[k := '.'])
  {
    var n, m, name := |Names.PREFIX|, Names.PREFIX + id, Names.PREFIX + id[k := '.'];
    assert forall i :: 0 <= i < |name| ==> m[i] == if i < n then Names.PREFIX[i] else id[i - n];
    assert forall i :: 0 <= i < |name| && i != n + k ==> name[i] == m[i];
    assert name[n + k] == '.' && LowerOrDigit(m[n + k]);
    MatchOfSameLength(m, name);
    IndexIsFirstMatch(m, name);
    assert m[0..|m|] == m;
  }

  // ---------- provision safety ----------

  /** Event `k` of the run is the install step of a provision of `name`, and it is granted. */
  predicate InstallsAt(s: System, es: seq<Event>, k: int, name: string) {
    && 0 <= k < |es| && es[k].Step?
    && var mid := Run(s, es[..k]);
       && es[k].handler in mid.handlers
       && var h := mid.handlers[es[k].handler];
          && h.op.Provision? && NameOf(h.op) == Return(name) && h.phase == Checked
          && Next(mid, es[k]).handlers[es[k].handler].phase == Done(Okay)
  }

  /** Event `k` ends the life of the release: it is purged, or becomes FAILED or DELETED. */
  predicate FreesAt(s: System, es: seq<Event>, k: int, name: string) {
    0 <= k < |es| && Live(Run(s, es[..k]).store, name) && !Live(Next(Run(s, es[..k]), es[k]).store, name)
  }

  lemma RunPrefix(s: System, es: seq<Event>, k: nat)
    requires k < |es|
    ensures Run(s, es[..k + 1]) == Next(Run(s, es[..k]), es[k])
  {
    assert es[..k + 1][..k] == es[..k];
  }

  lemma InstallNeedsFreeName(s: System, es: seq<Event>, k: nat, name: string)
    requires InstallsAt(s, es, k, name)
    ensures !Live(Run(s, es[..k]).store, name)
    ensures Storable(name) ==> Live(Run(s, es[..k + 1]).store, name)
  {
    RunPrefix(s, es, k);
  }

  lemma {:induction false} LifeEnds(s: System, es: seq<Event>, i: nat, j: nat, name: string) returns (k: nat)
    requires i < j <= |es| && Live(Run(s, es[..i]).store, name) && !Live(Run(s, es[..j]).store, name)
    ensures i <= k < j && FreesAt(s, es, k, name)
    decreases j - i
  {
    RunPrefix(s, es, i);
    if Live(Run(s, es[..i + 1]).store, name) {
      k := LifeEnds(s, es, i + 1, j, name);
    } else {
      k := i;
    }
  }

  /** Between two successful provisions of the same release, by however many interleaved handlers, the
      release was purged or became FAILED or DELETED, if its name can be stored. */
  lemma ProvisionsSeparated(s: System, es: seq<Event>, i: nat, j: nat, name: string) returns (k: nat)
    requires i < j && InstallsAt(s, es, i, name) && InstallsAt(s, es, j, name) && Storable(name)
    ensures i < k < j && FreesAt(s, es, k, name)
  {
    InstallNeedsFreeName(s, es, i, name);
    InstallNeedsFreeName(s, es, j, name);
    k := LifeEnds(s, es, i + 1, j, name);
  }

  lemma UnstorableStep(store: Store, h: Handler, env: Env, name: string)
    requires !Storable(name) && name !in store
    ensures name !in StepHandler(store, h, env).0
  {
  }

  /** A name that cannot be stored never gets a history, unless somebody else could store it. */
  lemma {:induction false} UnstorableStaysFree(s: System, es: seq<Event>, name: string)
    requires !Storable(name) && name !in s.store
    requires forall k :: 0 <= k < |es| && es[k].Outside? ==> es[k].name != name
    ensures name !in Run(s, es).store
    decreases |es|
  {
    if es != [] {
      var mid, e := Run(s, es[..|es| - 1]), es[|es| - 1];
      UnstorableStaysFree(s, es[..|es| - 1], name);
      if e.Step? && e.handler in mid.handlers {
        UnstorableStep(mid.store, mid.handlers[e.handler], e.env, name);
      }
    }
  }

  predicate ReadyToProvision(s: System, i: nat, id: string, name: string) {
    && i in s.handlers && s.handlers[i] == Handler(Op.Provision(id, "", map[]), Start)
    && Names.GetName(id) == Return(name) && name !in s.store && |name| <= MAX_NAME
  }

  lemma ProvisionSteps(s: System, i: nat, id: string, name: string)
    requires ReadyToProvision(s, i, id, name)
    ensures var checked := Next(s, Step(i, SMOOTH));
            && checked == s.(handlers := s.handlers[i := s.handlers[i].(phase := Checked)])
            && Next(checked, Step(i, SMOOTH)).handlers.Keys == s.handlers.Keys
            && Next(checked, Step(i, SMOOTH)).handlers[i].phase == Done(Okay)
            && forall j :: j in s.handlers && j != i ==>
                 Next(checked, Step(i, SMOOTH)).handlers[j] == s.handlers[j]
  {
  }

  /** Two smooth steps of a provision of a free name are a granted install. */
  lemma ProvisionedAt(s: System, es: seq<Event>, k: nat, i: nat, id: string, name: string)
    requires k + 1 < |es| && es[k] == es[k + 1] == Step(i, SMOOTH)
    requires ReadyToProvision(Run(s, es[..k]), i, id, name)
    ensures InstallsAt(s, es, k + 1, name)
    ensures forall j :: j in Run(s, es[..k]).handlers && j != i ==>
              && j in Run(s, es[..k + 2]).handlers
              && Run(s, es[..k + 2]).handlers[j] == Run(s, es[..k]).handlers[j]
  {
    RunPrefix(s, es, k);
    RunPrefix(s, es, k + 1);
    ProvisionSteps(Run(s, es[..k]), i, id, name);
  }

  /** Without that the property fails: for every id whose name is short enough and cannot be stored, there
      is a run with two successful provisions and nothing that frees the name. */
  lemma UnstorableProvisionedTwice(id: string, name: string) returns (s: System, es: seq<Event>)
    requires Names.GetName(id) == Return(name) && |name| <= MAX_NAME && !Storable(name)
    ensures InstallsAt(s, es, 1, name) && InstallsAt(s, es, 3, name)
    ensures forall k :: !FreesAt(s, es, k, name)
  {
    var start, a, b := Handler(Op.Provision(id, "", map[]), Start), Step(0, SMOOTH), Step(1, SMOOTH);
    s := System(map[], map[0 := start, 1 := start]);
    es := [a, a, b, b];
    forall k | 0 <= k < |es|
      ensures name !in Run(s, es[..k]).store
    {
      UnstorableStaysFree(s, es[..k], name);
    }
    assert Run(s, es[..0]) == s;
    ProvisionedAt(s, es, 0, 0, id, name);
    ProvisionedAt(s, es, 2, 1, id, name);
  }

  /** Only a deprovision's purge, an upgrade whose failure is recorded, or somebody else's change ends a
      release's life; in particular no provision does. */
  lemma WhatFrees(s: System, e: Event, name: string)
    requires Live(s.store, name) && !Live(Next(s, e).store, name)
    ensures Owner(s.handlers, e) == Some(name)
    ensures e.Step? ==>
              var h := s.handlers[e.handler];
              h.phase == Checked
              && (h.op.Deprovision? || (h.op.Update? && e.env.fault.Midway? && e.env.fault.progress == 1))
  {
    StepFrame(s, e, name);
  }

  // ---------- refusals leave the store alone ----------

  predicate Refusal(p: Phase) {
    p == Done(AlreadyExists) || p == Done(DoesNotExist)
  }

  lemma StepTowardsRefusal(store: Store, h: Handler, env: Env)
    ensures Refusal(StepHandler(store, h, env).1.phase) ==> StepHandler(store, h, env).0 == store
    ensures StepHandler(store, h, env).0 != store ==>
              StepHandler(store, h, env).1.phase in {Done(Okay), Done(Error), Listing}
    ensures h.phase == Listing ==> StepHandler(store, h, env).1.phase in {Done(Okay), Done(Error), Done(Crashed)}
    ensures h.phase.Done? ==> StepHandler(store, h, env).1 == h
  {
  }

  predicate NeverRefuses(p: Phase) {
    p in {Done(Okay), Done(Error), Done(Crashed), Listing}
  }

  lemma {:induction false} StaysUnrefused(s: System, es: seq<Event>, i: nat)
    requires i in s.handlers && NeverRefuses(s.handlers[i].phase)
    ensures i in Run(s, es).handlers && NeverRefuses(Run(s, es).handlers[i].phase)
    decreases |es|
  {
    if es != [] {
      var init, e := es[..|es| - 1], es[|es| - 1];
      StaysUnrefused(s, init, i);
      var mid := Run(s, init);
      StepFrame(mid, e, "");
      if e.Step? && e.handler == i {
        StepTowardsRefusal(mid.store, mid.handlers[i], e.env);
      }
    }
  }

  lemma RunSplit(s: System, es: seq<Event>, k: nat)
    requires k <= |es|
    ensures Run(s, es) == Run(Run(s, es[..k]), es[k..])
  {
    RunAcross(s, es[..k], es[k..]);
    assert es[..k] + es[k..] == es;
  }

  lemma ChangersNeverRefuse(s: System, e: Event, rest: seq<Event>)
    requires e.Step? && e.handler in s.handlers && Next(s, e).store != s.store
    ensures e.handler in Run(Next(s, e), rest).handlers
    ensures !Refusal(Run(Next(s, e), rest).handlers[e.handler].phase)
  {
    StepTowardsRefusal(s.store, s.handlers[e.handler], e.env);
    StaysUnrefused(Next(s, e), rest, e.handler);
  }

  /** A handler that ends up answering "already exists" or "does not exist" has left the store unchanged
      in every one of its steps, whatever ran in between. */
  lemma RefusalsLeaveStore(s: System, es: seq<Event>, i: nat, k: nat)
    requires i in s.handlers && i in Run(s, es).handlers && Refusal(Run(s, es).handlers[i].phase)
    requires k < |es| && es[k].Step? && es[k].handler == i
    ensures Run(s, es[..k + 1]).store == Run(s, es[..k]).store
  {
    RunPrefix(s, es, k);
    RunKeepsOps(s, es[..k]);
    RunSplit(s, es, k + 1);
    if Next(Run(s, es[..k]), es[k]).store != Run(s, es[..k]).store {
      ChangersNeverRefuse(Run(s, es[..k]), es[k], es[k + 1..]);
    }
  }
}
