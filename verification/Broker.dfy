/** Whole requests, run without interleaving, as the broker's methods perform them. */
module Broker {
  import opened Outcomes
  import opened Tiller
  import opened Lifecycle
  import Names
  import Polling
  import Reports
  import StatusReport
  import Text

  /** A handler run to its end by itself: it needs at most three steps. */
  function RunAlone(store: Store, op: Op, envs: (Env, Env, Env)): (r: (Store, Answer)) {
    var one := StepHandler(store, Handler(op, Start), envs.0);
    var two := StepHandler(one.0, one.1, envs.1);
    var three := StepHandler(two.0, two.1, envs.2);
    ThreeStepsSuffice(store, op, envs);
    (three.0, three.1.phase.answer)
  }

  lemma ThreeStepsSuffice(store: Store, op: Op, envs: (Env, Env, Env))
    ensures var one := StepHandler(store, Handler(op, Start), envs.0);
            var two := StepHandler(one.0, one.1, envs.1);
            StepHandler(two.0, two.1, envs.2).1.phase.Done?
  {
  }

  /** A step of the whole request is the same handler stepping in a system. */
  lemma AloneIsARun(s: System, i: nat, op: Op, envs: (Env, Env, Env))
    requires i in s.handlers && s.handlers[i] == Handler(op, Start)
    ensures var end := Run(s, [Step(i, envs.0), Step(i, envs.1), Step(i, envs.2)]);
            var r := RunAlone(s.store, op, envs);
            end.store == r.0 && i in end.handlers && end.handlers[i] == Handler(op, Done(r.1))
  {
    var a, b, c := Step(i, envs.0), Step(i, envs.1), Step(i, envs.2);
    RunSnoc(s, [], a);
    RunSnoc(s, [a], b);
    RunSnoc(s, [a, b], c);
    assert [] + [a] == [a] && [a] + [b] == [a, b] && [a, b] + [c] == [a, b, c];
    ThreeStepsSuffice(s.store, op, envs);
  }

  /** `HelmBroker.Provision`: the existence check's own failures do not stop the installation. */
  method Provision(server: Server, id: string, namespace: string, values: map<string, string>,
                   envs: (Env, Env, Env)) returns (answer: Answer)
    modifies server
    ensures (server.store, answer) == RunAlone(old(server.store), Op.Provision(id, namespace, values), envs)
  {
    var name := Names.GetName(id);
    if name.Panic? {
      return Crashed;
    }
    var status := server.ReleaseStatus(name.value, envs.0.fault);
    if status.Granted? {
      return AlreadyExists;
    }
    if !envs.0.work.Prepared? {
      return if envs.0.work.Broken? then Crashed else Error;
    }
    var reply := server.InstallRelease(name.value, namespace, values, envs.1.fault);
    answer := if reply.Granted? then Okay else Error;
  }

  /** `HelmBroker.Update`: after a refused upgrade, one listed revision counts as success. */
  method Update(server: Server, id: string, values: map<string, string>, envs: (Env, Env, Env))
      returns (answer: Answer)
    modifies server
    ensures (server.store, answer) == RunAlone(old(server.store), Op.Update(id, values), envs)
  {
    if envs.0.work.Rejected? {
      return Error;
    }
    var name := Names.GetName(id);
    if name.Panic? || envs.0.work.Broken? {
      return Crashed;
    }
    var status := server.ReleaseStatus(name.value, envs.0.fault);
    if !status.Granted? {
      return Error;
    }
    var reply := server.UpdateRelease(name.value, values, envs.1.fault);
    if reply.Granted? {
      return Okay;
    }
    var failed, count := server.ListReleases(name.value, envs.2.fault);
    ListedRestricted(server.store, name.value);
    answer := if !failed && count == 1 then Okay else Error;
  }

  /** `HelmBroker.Deprovision`. */
  method Deprovision(server: Server, id: string, envs: (Env, Env, Env)) returns (answer: Answer)
    modifies server
    ensures (server.store, answer) == RunAlone(old(server.store), Op.Deprovision(id), envs)
  {
    var name := Names.GetName(id);
    if name.Panic? {
      return Crashed;
    }
    var status := server.ReleaseStatus(name.value, envs.0.fault);
    if SaysMissing(status) {
      return DoesNotExist;
    }
    var reply := server.DeleteRelease(name.value, envs.1.fault);
    answer := if reply.Granted? then Okay else Error;
  }

  /** The environment in which the cluster prints `resources` for the release. */
  function Printing(env: Env, resources: string): Env {
    env.(cluster := env.cluster.(reading := Reports.Reading(resources)))
  }

  /** Reading and classifying the report of a found release. */
  method AnswerPoll(name: string, revision: Revision, env: Env, resources: string) returns (answer: Answer)
    ensures answer == PollAnswer(name, revision, Printing(env, resources))
  {
    var cluster := env.cluster;
    var text := if Polling.WithoutResources(revision.code) then "" else resources;
    var status := Reports.GetStatus(name, revision.namespace, cluster.lastDeployment, cluster.timeout,
                                    cluster.now, revision.code, text);
    Polling.ReplyIsStatusOf(name, revision.namespace, revision.code, Printing(env, resources).cluster, resources);
    if status.Panic? {
      return Crashed;
    }
    answer := Polled(Polling.Poll(Polling.AsWritten(status.value)));
  }

  /** The requests of a poll: the release if it was found, and otherwise the answer. */
  method FindForPoll(server: Server, id: string, first: Fault, second: Fault)
      returns (found: Option<Revision>, answer: Answer)
    ensures found.Some? ==> Names.GetName(id).Return?
    ensures forall envs: (Env, Env, Env) :: envs.0.fault == first && envs.1.fault == second ==>
              RunAlone(server.store, Op.LastOperation(id), envs) ==
              (server.store,
               if found.Some? then PollAnswer(Names.GetName(id).value, found.value, envs.0) else answer)
  {
    var name := Names.GetName(id);
    if name.Panic? {
      return None, Crashed;
    }
    var reply := server.ReleaseStatus(name.value, first);
    if reply.Granted? {
      return Some(reply.revision), Okay;
    }
    var again := server.ReleaseStatus(name.value, second);
    found, answer := None, if SaysMissing(again) then DoesNotExist else Error;
  }

  /** `HelmBroker.LastOperation`; `resources` is the text that the cluster prints for the release. */
  method LastOperation(server: Server, id: string, resources: string, envs: (Env, Env, Env))
      returns (answer: Answer)
    ensures (server.store, answer)
            == RunAlone(server.store, Op.LastOperation(id), (Printing(envs.0, resources), envs.1, envs.2))
  {
    var found, otherwise := FindForPoll(server, id, envs.0.fault, envs.1.fault);
    if found.Some? {
      answer := AnswerPoll(Names.GetName(id).value, found.value, envs.0, resources);
    } else {
      answer := otherwise;
    }
  }

  lemma BindSteps(store: Store, id: string, envs: (Env, Env, Env))
    ensures var name, env := Names.GetName(id), envs.0;
            RunAlone(store, Op.Bind(id), envs) ==
            (store,
             if env.work.Rejected? then Error
             else if name.Panic? then Crashed
             else
               var reply := Lookup(store, name.value, env.fault);
               if !reply.Granted? then Error
               else if env.work.Broken? || PollAnswer(name.value, reply.revision, env) == Crashed then Crashed
               else Okay)
  {
  }

  /** `HelmBroker.Bind`; `resources` is the text that the cluster prints for the release. */
  method Bind(server: Server, id: string, resources: string, envs: (Env, Env, Env)) returns (answer: Answer)
    ensures (server.store, answer)
            == RunAlone(server.store, Op.Bind(id), (Printing(envs.0, resources), envs.1, envs.2))
  {
    BindSteps(server.store, id, (Printing(envs.0, resources), envs.1, envs.2));
    if envs.0.work.Rejected? {
      return Error;
    }
    var name := Names.GetName(id);
    if name.Panic? {
      return Crashed;
    }
    var reply := server.ReleaseStatus(name.value, envs.0.fault);
    if !reply.Granted? {
      return Error;
    }
    var polled := AnswerPoll(name.value, reply.revision, envs.0, resources);
    answer := if polled == Crashed || envs.0.work.Broken? then Crashed else Okay;
  }

  /** `HelmBroker.Unbind`. */
  method Unbind(server: Server, id: string, envs: (Env, Env, Env)) returns (answer: Answer)
    ensures (server.store, answer) == RunAlone(server.store, Op.Unbind(id), envs)
  {
    var name := Names.GetName(id);
    if name.Panic? {
      return Crashed;
    }
    var reply := server.ReleaseStatus(name.value, envs.0.fault);
    answer := if reply.Granted? || SaysMissing(reply) then Okay else Error;
  }

  // ---------- what the answers mean ----------

  /** The instance has no release name. */
  predicate Nameless(id: string) {
    Names.GetName(id).Panic?
  }

  /** A lookup of the instance works and finds it. */
  predicate Found(store: Store, id: string, fault: Fault) {
    && !Nameless(id) && fault == NoFault
    && ValidName(Names.GetName(id).value) && Names.GetName(id).value in store
  }

  /** A lookup of the instance says "not found": because it works and the instance is missing, or because
      it fails with a message that happens to contain these words. */
  predicate SaidMissing(store: Store, id: string, fault: Fault) {
    && !Nameless(id)
    && if fault == NoFault then ValidName(Names.GetName(id).value) && Names.GetName(id).value !in store
       else Text.Contains(fault.message, "not found")
  }

  lemma LookupAnswers(store: Store, id: string, fault: Fault)
    requires !Nameless(id)
    ensures var reply := Lookup(store, Names.GetName(id).value, fault);
            && (reply.Granted? <==> Found(store, id, fault))
            && (SaysMissing(reply) <==> SaidMissing(store, id, fault))
  {
    LookupExactly(store, Names.GetName(id).value);
  }

  /** Reading the report of the stored release ends without a run-time error. */
  predicate Readable(store: Store, id: string, cluster: Polling.Cluster)
    requires !Nameless(id) && Names.GetName(id).value in store
  {
    var code := Last(store[Names.GetName(id).value]).code;
    code == StatusReport.Deleted || code == StatusReport.Failed || cluster.reading.Return?
  }

  /** Binding changes nothing. It succeeds exactly if the release is found, its report can be read and the
      handler's own work ends well; it crashes exactly if there is no name, or the release is found but its
      report or its credentials end in a run-time error; a request that cannot be decoded and a lookup that
      does not find the release are errors. */
  lemma BindAnswer(store: Store, id: string, envs: (Env, Env, Env))
    ensures var env, r := envs.0, RunAlone(store, Op.Bind(id), envs);
            && r.0 == store
            && (r.1 == Okay <==>
                  env.work == Prepared && Found(store, id, env.fault) && Readable(store, id, env.cluster))
            && (r.1 == Crashed <==>
                  && env.work != Rejected
                  && (|| Nameless(id)
                      || (Found(store, id, env.fault)
                          && (env.work == Broken || !Readable(store, id, env.cluster)))))
            && (r.1 == Error <==>
                  env.work == Rejected || (!Nameless(id) && !Found(store, id, env.fault)))
  {
  }

  /** Unbinding changes nothing and succeeds exactly if the lookup finds the release or says "not found". */
  lemma UnbindAnswer(store: Store, id: string, envs: (Env, Env, Env))
    ensures var fault, r := envs.0.fault, RunAlone(store, Op.Unbind(id), envs);
            && r.0 == store
            && (r.1 == Okay <==> Found(store, id, fault) || SaidMissing(store, id, fault))
            && (r.1 == Crashed <==> Nameless(id))
            && (r.1 == Error <==> !Nameless(id) && !Found(store, id, fault) && !SaidMissing(store, id, fault))
  {
    if !Nameless(id) {
      LookupAnswers(store, id, envs.0.fault);
    }
  }

  /** Provisioning stops before it asks for an installation exactly if there is no name, the release is
      found, or the handler's own work fails; a lookup that fails does not stop it. */
  lemma ProvisionAnswer(store: Store, id: string, namespace: string, values: map<string, string>,
                        envs: (Env, Env, Env))
    ensures var env, r := envs.0, RunAlone(store, Op.Provision(id, namespace, values), envs);
            var installs := !Nameless(id) && !Found(store, id, env.fault) && env.work == Prepared;
            && (r.1 == AlreadyExists <==> Found(store, id, env.fault))
            && (r.1 == Crashed <==> Nameless(id) || (!Found(store, id, env.fault) && env.work == Broken))
            && (r.1 == Okay ==> installs)
            && (r.1 == Error || r.1 == Okay || r.1 == AlreadyExists || r.1 == Crashed)
            && if installs then
                 var (after, reply) := Install(store, Names.GetName(id).value, namespace, values, envs.1.fault);
                 r.0 == after && (r.1 == Okay <==> reply.Granted?)
               else r.0 == store
  {
  }

  /** Deprovisioning answers "does not exist" exactly if the lookup says "not found", which a failing one
      may say of an instance that exists; otherwise it deletes, even if the lookup fails. */
  lemma DeprovisionAnswer(store: Store, id: string, envs: (Env, Env, Env))
    ensures var fault, r := envs.0.fault, RunAlone(store, Op.Deprovision(id), envs);
            && (r.1 == DoesNotExist <==> SaidMissing(store, id, fault))
            && (r.1 == Crashed <==> Nameless(id))
            && (r.1 == Okay <==> !SaidMissing(store, id, fault) && Found(store, id, envs.1.fault))
            && (r.1 == Error || r.1 == Okay || r.1 == DoesNotExist || r.1 == Crashed)
            && r.0 == if Nameless(id) || SaidMissing(store, id, fault) then store
                      else Purge(store, Names.GetName(id).value, envs.1.fault).0
  {
    if !Nameless(id) {
      LookupAnswers(store, id, envs.0.fault);
    }
  }

  /** An update of a release that the lookup does not find is an error and changes nothing, as is one that
      cannot be decoded or prepared; one without a name, or whose own work ends in a run-time error, crashes. */
  lemma UpdateWithoutRelease(store: Store, id: string, values: map<string, string>, envs: (Env, Env, Env))
    requires envs.0.work != Prepared || !Found(store, id, envs.0.fault)
    ensures var env, r := envs.0, RunAlone(store, Op.Update(id, values), envs);
            && r.0 == store
            && (r.1 == Crashed <==> env.work == Broken || (Nameless(id) && env.work != Rejected))
            && (r.1 == Crashed || r.1 == Error)
  {
  }

  // ---------- provision and deprovision undo each other ----------

  /** A free name: no revision at all. */
  predicate Free(store: Store, id: string) {
    Names.GetName(id).Return? && Names.GetName(id).value !in store
  }

  /** Whatever fails on the way, if both requests succeed the store is as before. */
  lemma ProvisionDeprovisionRestores(store: Store, id: string, namespace: string, values: map<string, string>,
                                     up: (Env, Env, Env), down: (Env, Env, Env))
    requires Free(store, id)
    ensures var provisioned := RunAlone(store, Op.Provision(id, namespace, values), up);
            var removed := RunAlone(provisioned.0, Op.Deprovision(id), down);
            provisioned.1 == Okay && removed.1 == Okay ==> removed.0 == store
  {
  }

  predicate Faultless(envs: (Env, Env, Env)) {
    envs.0.fault == envs.1.fault == envs.2.fault == NoFault && envs.0.work == Prepared
  }

  /** On a free name, when nothing fails: provisioning succeeds exactly if the name is short enough, and
      leaves exactly one deployed revision if the name can be stored. */
  lemma FreeNameProvision(store: Store, id: string, namespace: string, values: map<string, string>,
                          envs: (Env, Env, Env))
    requires Free(store, id) && Faultless(envs)
    ensures var name, r := Names.GetName(id).value, Revision(StatusReport.Deployed, namespace, values);
            RunAlone(store, Op.Provision(id, namespace, values), envs)
            == (if |name| <= MAX_NAME && Storable(name) then store[name := [r]] else store,
                if |name| <= MAX_NAME then Okay else Error)
  {
    var r := Revision(StatusReport.Deployed, namespace, values);
    assert [] + [r] == [r];
  }

  /** On a free name, deprovisioning and polling answer that the instance does not exist exactly if Tiller
      accepts the name. */
  lemma FreeNameAnswers(store: Store, id: string, envs: (Env, Env, Env))
    requires Free(store, id) && Faultless(envs)
    ensures var answer := if ValidName(Names.GetName(id).value) then DoesNotExist else Error;
            && RunAlone(store, Op.Deprovision(id), envs) == (store, answer)
            && RunAlone(store, Op.LastOperation(id), envs) == (store, answer)
  {
    LookupExactly(store, Names.GetName(id).value);
  }

  /** The whole round, for a name that can be stored: provisioning twice, deprovisioning, and then a second
      deprovision and a poll, which both answer "does not exist"; provisioning works again. */
  lemma ProvisionRound(store: Store, id: string, namespace: string, values: map<string, string>,
                       envs: (Env, Env, Env))
    requires Free(store, id) && Faultless(envs)
    requires Storable(Names.GetName(id).value) && |Names.GetName(id).value| <= MAX_NAME
    ensures var up := RunAlone(store, Op.Provision(id, namespace, values), envs);
            var again := RunAlone(up.0, Op.Provision(id, namespace, values), envs);
            var down := RunAlone(up.0, Op.Deprovision(id), envs);
            && up.1 == Okay
            && again == (up.0, AlreadyExists)
            && down == (store, Okay)
            && RunAlone(down.0, Op.Deprovision(id), envs).1 == DoesNotExist
            && RunAlone(down.0, Op.LastOperation(id), envs).1 == DoesNotExist
            && RunAlone(down.0, Op.Provision(id, namespace, values), envs).1 == Okay
  {
    FreeNameProvision(store, id, namespace, values, envs);
    FreeNameAnswers(store, id, envs);
    var name := Names.GetName(id).value;
    StorableIsValid(name);
    assert store[name := [Revision(StatusReport.Deployed, namespace, values)]] - {name} == store;
  }

  /** Under a name that is short enough but cannot be stored the instance is provisioned and recorded
      nowhere: it can be provisioned again, and deprovisioning and polling do not know it, or fail if the name
      does not even fit Tiller's pattern. */
  lemma UnstorableNameUnrecorded(store: Store, id: string, namespace: string, values: map<string, string>,
                                 envs: (Env, Env, Env))
    requires Free(store, id) && Faultless(envs)
    requires |Names.GetName(id).value| <= MAX_NAME && !Storable(Names.GetName(id).value)
    ensures var up := RunAlone(store, Op.Provision(id, namespace, values), envs);
            var answer := if ValidName(Names.GetName(id).value) then DoesNotExist else Error;
            && up == (store, Okay)
            && RunAlone(up.0, Op.Provision(id, namespace, values), envs) == (store, Okay)
            && RunAlone(up.0, Op.Deprovision(id), envs) == (store, answer)
            && RunAlone(up.0, Op.LastOperation(id), envs) == (store, answer)
  {
    FreeNameProvision(store, id, namespace, values, envs);
    FreeNameAnswers(store, id, envs);
  }

  /** There are such ids of both kinds. */
  lemma UnstorableNames()
    ensures var name := Names.PREFIX + "-";
            Names.GetName(name) == Return(name) && |name| <= MAX_NAME && !Storable(name) && !ValidName(name)
    ensures var name := Names.PREFIX + "_x";
            Names.GetName(name) == Return(name) && |name| <= MAX_NAME && !Storable(name) && ValidName(name)
  {
    PrefixedIdName("-");
    PrefixedIdName("_x");
    var a, b := Names.PREFIX + "-", Names.PREFIX + "_x";
    assert a[|a| - 1] == '-';
    assert b[|Names.PREFIX|] == '_' && b[|b| - 1] == 'x' && b[0] == 'h';
    assert forall i :: 0 <= i < |Names.PREFIX| ==> Alphanumeric(Names.PREFIX[i]) && b[i] == Names.PREFIX[i];
  }

  /** A kept character that can be stored: a letter, a digit, or a dot before one. */
  predicate StoredChar(kept: string, i: nat)
    requires i < |kept|
  {
    LowerOrDigit(kept[i]) || (kept[i] == '.' && i + 1 < |kept| && LowerOrDigit(kept[i + 1]))
  }

  /** Which generated names can be stored: the characters kept must be letters, digits or dots, and each dot
      must be followed by a letter or digit. */
  lemma GeneratedNameStorable(id: string)
    requires !Text.HasPrefix(id, Names.PREFIX) && Names.GetName(id).Return?
    ensures var kept := Names.Normal(id)[..Names.KEPT];
            Storable(Names.GetName(id).value) <==> forall i :: 0 <= i < |kept| ==> StoredChar(kept, i)
  {
    var kept := Names.Normal(id)[..Names.KEPT];
    assert Names.PlainName(kept) by {
      Names.NormalIsPlain(id);
    }
    KeptIsStorable(kept);
  }

  lemma KeptIsStorable(kept: string)
    requires kept != "" && forall i :: 0 <= i < |kept| ==> kept[i] != '-'
    ensures Storable(Names.PREFIX + kept) <==> forall i :: 0 <= i < |kept| ==> StoredChar(kept, i)
  {
    var n, name := |Names.PREFIX|, Names.PREFIX + kept;
    assert forall i :: 0 <= i < n ==> LowerOrDigit(Names.PREFIX[i]);
    assert forall i :: 0 <= i < |name| ==> name[i] == if i < n then Names.PREFIX[i] else kept[i - n];
    if Storable(name) {
      forall i | 0 <= i < |kept|
        ensures StoredChar(kept, i)
      {
        assert name[n + i] == kept[i];
        assert LowerOrDigit(name[n + i]) || DotBetween(name, n + i);
      }
    }
    if forall i :: 0 <= i < |kept| ==> StoredChar(kept, i) {
      KeptDotsAreBetween(name, kept);
    }
  }

  lemma KeptDotsAreBetween(name: string, kept: string)
    requires name == Names.PREFIX + kept && kept != ""
    requires forall i :: 0 <= i < |name| ==>
               name[i] == if i < |Names.PREFIX| then Names.PREFIX[i] else kept[i - |Names.PREFIX|]
    requires forall i :: 0 <= i < |Names.PREFIX| ==> LowerOrDigit(Names.PREFIX[i])
    requires forall i :: 0 <= i < |kept| ==> StoredChar(kept, i)
    ensures Storable(name)
  {
    var n := |Names.PREFIX|;
    forall i | 0 <= i < |name|
      ensures LowerOrDigit(name[i]) || DotBetween(name, i)
    {
      if i >= n {
        assert StoredChar(kept, i - n);
        assert i > n ==> StoredChar(kept, i - n - 1);
      }
    }
    assert StoredChar(kept, |kept| - 1);
  }

  /** Which generated names fit the pattern: the characters kept must be letters, digits or dots, and the
      last one no dot. */
  lemma GeneratedNameFits(id: string)
    requires !Text.HasPrefix(id, Names.PREFIX) && Names.GetName(id).Return?
    ensures var kept := Names.Normal(id)[..Names.KEPT];
            ValidName(Names.GetName(id).value) <==>
            && (forall i :: 0 <= i < |kept| ==> Alphanumeric(kept[i]) || kept[i] == '.')
            && kept[|kept| - 1] != '.'
  {
    var kept, name := Names.Normal(id)[..Names.KEPT], Names.GetName(id).value;
    assert Names.PlainName(kept) by {
      Names.NormalIsPlain(id);
    }
    assert name == Names.PREFIX + kept && name[|name| - 1] == kept[|kept| - 1];
    assert forall i :: 0 <= i < |kept| ==> name[i + |Names.PREFIX|] == kept[i];
  }

  // ---------- what an update's answer means ----------

  /** The request gets as far as Tiller. */
  predicate Reaches(store: Store, id: string, env: Env) {
    && Names.GetName(id).Return? && ValidName(Names.GetName(id).value) && Names.GetName(id).value in store
    && env.fault == NoFault && env.work == Prepared
  }

  /** Once the upgrade is requested, the update answers "okay" exactly if the upgrade was granted, or the
      listing works and shows exactly one revision, of whatever release. */
  lemma UpdateAnswer(store: Store, id: string, values: map<string, string>, envs: (Env, Env, Env))
    requires Reaches(store, id, envs.0)
    ensures var name := Names.GetName(id).value;
            var upgraded := Upgrade(store, name, values, envs.1.fault);
            && RunAlone(store, Op.Update(id, values), envs).0 == upgraded.0
            && (RunAlone(store, Op.Update(id, values), envs).1 == Okay <==>
                  || (envs.1.fault == NoFault && Upgradable(store, name))
                  || (envs.2.fault == NoFault
                      && |OwnListed(upgraded.0, name)| + |ForeignListed(upgraded.0, name)| == 1))
  {
    var name := Names.GetName(id).value;
    ListedRestricted(Upgrade(store, name, values, envs.1.fault).0, name);
  }

  /** An upgrade that has no effect, because it fails before it begins or because no revision is DEPLOYED:
      the update is reported as success exactly if the listing works and shows a single revision. The
      store is unchanged. */
  lemma RefusedUpgradeReported(store: Store, id: string, values: map<string, string>, envs: (Env, Env, Env))
    requires Reaches(store, id, envs.0)
    requires envs.1.fault.Before? || !Upgradable(store, Names.GetName(id).value)
    ensures var r := RunAlone(store, Op.Update(id, values), envs);
            && r.0 == store
            && (r.1 == Okay <==> envs.2.fault == NoFault && |Listed(store, Names.GetName(id).value)| == 1)
  {
    UpdateAnswer(store, id, values, envs);
    ListedRestricted(store, Names.GetName(id).value);
  }

  /** So a refused upgrade of a release with a single revision, alone in its name, is reported as success
      although nothing has changed; in particular every update of a release whose revision is FAILED. */
  lemma RefusedUpgradeReportedAsSuccess(store: Store, id: string, r: Revision, values: map<string, string>,
                                        envs: (Env, Env, Env))
    requires Reaches(store, id, envs.0) && envs.2.fault == NoFault
    requires envs.1.fault.Before? || !Upgradable(store, Names.GetName(id).value)
    requires store[Names.GetName(id).value] == [r] && Shown(r.code) && Alone(store, Names.GetName(id).value)
    ensures RunAlone(store, Op.Update(id, values), envs) == (store, Okay)
  {
    var name := Names.GetName(id).value;
    RefusedUpgradeReported(store, id, values, envs);
    ListingShowsOneExactly(store, name);
    ListedRestricted(store, name);
    MatchesSelf(name);
    assert OwnListed(store, name) == {(name, 0)};
  }

  /** How far an upgrade of a DEPLOYED release gets before it fails decides how it is reported. While the
      old revision stays DEPLOYED the listing shows both, so the answer is an error. Once it is superseded, the
      listing shows the pending one in its place: if it was the only one shown, the failed update is reported
      as success. */
  lemma HalfwayUpgradeReported(store: Store, id: string, values: map<string, string>, envs: (Env, Env, Env))
    requires Reaches(store, id, envs.0) && Upgradable(store, Names.GetName(id).value) && envs.1.fault.Midway?
    ensures var r, name := RunAlone(store, Op.Update(id, values), envs), Names.GetName(id).value;
            && (r.1 == Okay <==>
                  envs.1.fault.progress >= 2 && envs.2.fault == NoFault && |Listed(store, name)| == 1)
            && name in r.0 && Last(r.0[name]).code in {StatusReport.Failed, StatusReport.PendingUpgrade}
  {
    var name := Names.GetName(id).value;
    UpdateAnswer(store, id, values, envs);
    ListedRestricted(Upgrade(store, name, values, envs.1.fault).0, name);
    ListedHalfway(store, name, values, envs.1.fault);
  }

  /** An upgrade hands over the user's parameters alone: if a revision is DEPLOYED and nothing fails, the
      update adds one revision with exactly those values, so that the template and plan values are lost,
      unless there are no parameters. */
  lemma UpdateReplacesValues(store: Store, id: string, values: map<string, string>, envs: (Env, Env, Env))
    requires Reaches(store, id, envs.0) && Faultless(envs) && Upgradable(store, Names.GetName(id).value)
    ensures var r, name := RunAlone(store, Op.Update(id, values), envs), Names.GetName(id).value;
            && r.1 == Okay && OnlyAt(store, r.0, name)
            && Extends(HistoryOf(r.0, name), store[name])
            && DeployedCount(r.0[name]) == DeployedCount(store[name])
            && var base := store[name][FirstDeployed(store[name])];
               Last(r.0[name]) ==
               Revision(StatusReport.Deployed, base.namespace, if values == map[] then base.values else values)
  {
    UpgradeExactly(store, Names.GetName(id).value, values, NoFault);
  }

  // ---------- queries ----------

  /** Binding, unbinding and polling change nothing; unbinding a missing instance succeeds and binding it
      fails. */
  lemma QueriesChangeNothing(store: Store, op: Op, envs: (Env, Env, Env))
    requires op.Bind? || op.Unbind? || op.LastOperation?
    ensures RunAlone(store, op, envs).0 == store
    ensures op.Unbind? && envs.0.fault == NoFault && Free(store, op.id)
            && ValidName(Names.GetName(op.id).value) ==>
              RunAlone(store, op, envs).1 == Okay
    ensures op.Bind? && Free(store, op.id) ==> RunAlone(store, op, envs).1 == Error
  {
    if Names.GetName(op.id).Return? {
      LookupExactly(store, Names.GetName(op.id).value);
    }
  }

  /** An answer that tells one of the three states of the broker interface, or a crash exactly if the
      report cannot be read; the state is wrong exactly for a deployed release with nodes missing before the
      deadline. */
  predicate PollsCorrectly(answer: Answer, code: StatusReport.Code, status: Outcome<StatusReport.Status>, late: bool) {
    && (answer == Crashed <==> status.Panic?)
    && (status.Return? ==>
          && answer.Polled? && answer.state != Polling.NoState
          && (answer.state != Polling.Poll(Polling.AsIntended(status.value)) <==>
                code == StatusReport.Deployed && !late
                && status.value.availableNodes < status.value.desiredNodes))
  }

  /** The state that a poll of a release with this code, node counts and deadline is answered: by mistake
      every deployed release that is not failed has succeeded. */
  function ToldState(code: StatusReport.Code, missing: bool, late: bool): Polling.PollState {
    match code
    case Deployed => if late && missing then Polling.FailedState else Polling.Succeeded
    case Deleted => Polling.Succeeded
    case Deleting =>
      if !missing then Polling.Succeeded else if late then Polling.FailedState else Polling.InProgress
    case _ => Polling.FailedState
  }

  /** Polling changes nothing. It crashes exactly if there is no name or the report of a found release
      cannot be read. A found release is answered by its code, its missing nodes and the deadline. If the
      first lookup does not find it, a second one decides between "does not exist" and an error. */
  lemma PollAnswers(store: Store, id: string, envs: (Env, Env, Env))
    ensures var env, r := envs.0, RunAlone(store, Op.LastOperation(id), envs);
            && r.0 == store
            && (r.1 == Crashed <==>
                  Nameless(id) || (Found(store, id, env.fault) && !Readable(store, id, env.cluster)))
            && (r.1 == DoesNotExist <==>
                  !Nameless(id) && !Found(store, id, env.fault) && SaidMissing(store, id, envs.1.fault))
            && (r.1 == Error <==>
                  !Nameless(id) && !Found(store, id, env.fault) && !SaidMissing(store, id, envs.1.fault))
            && (Found(store, id, env.fault) && Readable(store, id, env.cluster) ==>
                  var code := Last(store[Names.GetName(id).value]).code;
                  var missing := env.cluster.reading.Return?
                                 && env.cluster.reading.value.available < env.cluster.reading.value.desired;
                  r.1 == Polled(ToldState(code, missing, Polling.Late(env.cluster))))
  {
    if !Nameless(id) {
      LookupAnswers(store, id, envs.1.fault);
    }
  }

  lemma PollOfRevision(name: string, revision: Revision, env: Env)
    ensures PollsCorrectly(PollAnswer(name, revision, env), revision.code, StatusOfReply(name, revision, env),
                           Polling.Late(env.cluster))
  {
    if StatusOfReply(name, revision, env).Return? {
      Polling.ReplyDiffersExactly(name, revision.namespace, revision.code, env.cluster);
    }
  }

  /** What a poll of a stored release is answered. */
  lemma PollOfStored(store: Store, id: string, envs: (Env, Env, Env))
    requires Reaches(store, id, envs.0)
    ensures var name := Names.GetName(id).value;
            PollsCorrectly(RunAlone(store, Op.LastOperation(id), envs).1, Last(store[name]).code,
                           StatusOfReply(name, Last(store[name]), envs.0), Polling.Late(envs.0.cluster))
  {
    var name := Names.GetName(id).value;
    PollOfRevision(name, Last(store[name]), envs.0);
    assert RunAlone(store, Op.LastOperation(id), envs).1 == PollAnswer(name, Last(store[name]), envs.0);
  }
}
