/** Catalog lookups by id, ignoring case, over a map of services in arbitrary iteration order. */
module Catalog {
  import opened Outcomes
  import opened Text
  import opened Unordered

  datatype Plan = Plan(id: string, name: string, chart: string, chartVersion: string,
                       chartValues: map<string, string>)

  datatype Service = Service(id: string, name: string, chart: string, chartVersion: string,
                             plans: seq<Plan>)

  /** The zero values that a missed lookup returns, with no error. */
  const NO_PLAN := Plan("", "", "", "", map[])
  const NO_SERVICE := Service("", "", "", "", [])

  type Services = map<string, Service>

  function FirstPlan(plans: seq<Plan>, plan: string): Option<Plan> {
    if plans == [] then None
    else if EqualFold(plans[0].id, plan) then Some(plans[0])
    else FirstPlan(plans[1..], plan)
  }

  function GetService(services: Services, order: seq<string>, service: string): Service
    requires forall k :: k in order ==> k in services
  {
    if order == [] then NO_SERVICE
    else if EqualFold(services[order[0]].id, service) then services[order[0]]
    else GetService(services, order[1..], service)
  }

  /** Every service with the right id is searched, until one has the plan. */
  function GetServicePlan(services: Services, order: seq<string>, service: string, plan: string): Plan
    requires forall k :: k in order ==> k in services
  {
    if order == [] then
      NO_PLAN
    else
      var s := services[order[0]];
      if EqualFold(s.id, service) && FirstPlan(s.plans, plan).Some? then
        FirstPlan(s.plans, plan).value
      else
        GetServicePlan(services, order[1..], service, plan)
  }

  /** The services that answer the lookup. */
  predicate Answers(s: Service, service: string, plan: string) {
    EqualFold(s.id, service) && FirstPlan(s.plans, plan).Some?
  }

  function Candidates(services: Services, service: string, plan: string): set<string> {
    set k | k in services && Answers(services[k], service, plan)
  }

  predicate UniqueUpToCase(services: Services) {
    forall j, k :: j in services && k in services && EqualFold(services[j].id, services[k].id) ==> j == k
  }

  lemma {:induction false} LookupByCandidate(services: Services, order: seq<string>, service: string,
                                             plan: string)
    requires forall k :: k in order ==> k in services
    ensures GetServicePlan(services, order, service, plan) ==
            match FirstKey(order, Candidates(services, service, plan))
            case None => NO_PLAN
            case Some(k) => FirstPlan(services[k].plans, plan).value
  {
    if order != [] && !Answers(services[order[0]], service, plan) {
      LookupByCandidate(services, order[1..], service, plan);
    }
  }

  /** The first of the plans with the id, up to case. */
  predicate FirstMatch(plans: seq<Plan>, plan: string, i: nat) {
    i < |plans| && EqualFold(plans[i].id, plan) && forall j :: 0 <= j < i ==> !EqualFold(plans[j].id, plan)
  }

  lemma {:induction false} FirstPlanAt(plans: seq<Plan>, plan: string) returns (i: nat)
    ensures if FirstPlan(plans, plan).Some? then FirstMatch(plans, plan, i) && FirstPlan(plans, plan).value == plans[i]
            else forall j :: 0 <= j < |plans| ==> !EqualFold(plans[j].id, plan)
  {
    i := 0;
    if plans != [] && !EqualFold(plans[0].id, plan) {
      var k := FirstPlanAt(plans[1..], plan);
      i := k + 1;
    }
  }

  predicate HasPlan(s: Service, service: string, plan: string) {
    EqualFold(s.id, service) && exists i :: 0 <= i < |s.plans| && EqualFold(s.plans[i].id, plan)
  }

  /** No service visited before the `n`th has both ids. */
  predicate NoneBefore(services: Services, order: seq<string>, service: string, plan: string, n: nat)
    requires n <= |order| && forall k :: k in order ==> k in services
  {
    forall m :: 0 <= m < n ==> !HasPlan(services[order[m]], service, plan)
  }

  /** The lookup finds the first plan with the id in the first visited service that has both ids, and the
      zero plan if no service has. */
  lemma {:induction false} PlanFound(services: Services, order: seq<string>, service: string, plan: string)
      returns (n: nat, i: nat)
    requires forall k :: k in order ==> k in services
    ensures n <= |order| && NoneBefore(services, order, service, plan, n)
    ensures var found := GetServicePlan(services, order, service, plan);
            if n == |order| then found == NO_PLAN
            else
              var s := services[order[n]];
              HasPlan(s, service, plan) && FirstMatch(s.plans, plan, i) && found == s.plans[i]
  {
    n, i := 0, 0;
    if order != [] {
      var s := services[order[0]];
      i := FirstPlanAt(s.plans, plan);
      if !HasPlan(s, service, plan) {
        var rest := order[1..];
        var m, j := PlanFound(services, rest, service, plan);
        n, i := m + 1, j;
        forall l | 0 <= l < n
          ensures !HasPlan(services[order[l]], service, plan)
        {
          assert l > 0 ==> order[l] == rest[l - 1];
        }
      }
    }
  }

  ghost predicate LookupDetermined(services: Services, service: string, plan: string) {
    forall a, b :: IsOrder(a, services.Keys) && IsOrder(b, services.Keys) ==>
                     GetServicePlan(services, a, service, plan) == GetServicePlan(services, b, service, plan)
  }

  ghost predicate SamePlan(services: Services, service: string, plan: string) {
    var c := Candidates(services, service, plan);
    forall j, k :: j in c && k in c ==>
      FirstPlan(services[j].plans, plan) == FirstPlan(services[k].plans, plan)
  }

  lemma FirstCandidate(services: Services, order: seq<string>, c: set<string>)
    requires IsOrder(order, services.Keys) && c <= services.Keys
    ensures FirstKey(order, c).None? <==> c == {}
  {
  }

  lemma LookupStartsWith(services: Services, k: string, service: string, plan: string)
      returns (order: seq<string>)
    requires k in Candidates(services, service, plan)
    ensures IsOrder(order, services.Keys)
    ensures Some(GetServicePlan(services, order, service, plan)) == FirstPlan(services[k].plans, plan)
  {
    order := AnyKeyFirst(services.Keys, k);
    LookupByCandidate(services, order, service, plan);
  }

  /** The looked-up plan is the same in every map order if and only if all services that answer the
      lookup answer it with the same plan. */
  lemma LookupOrderIndependence(services: Services, service: string, plan: string)
    ensures LookupDetermined(services, service, plan) <==> SamePlan(services, service, plan)
  {
    var c := Candidates(services, service, plan);
    if LookupDetermined(services, service, plan) {
      forall j, k | j in c && k in c
        ensures FirstPlan(services[j].plans, plan) == FirstPlan(services[k].plans, plan)
      {
        var a := LookupStartsWith(services, j, service, plan);
        var b := LookupStartsWith(services, k, service, plan);
      }
    }
    if SamePlan(services, service, plan) {
      forall a, b | IsOrder(a, services.Keys) && IsOrder(b, services.Keys)
        ensures GetServicePlan(services, a, service, plan) == GetServicePlan(services, b, service, plan)
      {
        LookupByCandidate(services, a, service, plan);
        LookupByCandidate(services, b, service, plan);
        FirstCandidate(services, a, c);
        FirstCandidate(services, b, c);
      }
    }
  }

  /** Ids that are unique up to case make every lookup independent of the order. */
  lemma UniqueIdsDetermineLookup(services: Services, service: string, plan: string)
    requires UniqueUpToCase(services)
    ensures LookupDetermined(services, service, plan)
  {
    LookupOrderIndependence(services, service, plan);
  }

  lemma {:induction false} FirstPlanAgain(plans: seq<Plan>, plan: string)
    requires FirstPlan(plans, plan).Some?
    ensures FirstPlan(plans, FirstPlan(plans, plan).value.id) == FirstPlan(plans, plan)
    ensures EqualFold(FirstPlan(plans, plan).value.id, plan)
  {
    if !EqualFold(plans[0].id, plan) {
      FirstPlanAgain(plans[1..], plan);
    }
  }

  /** The broker looks a plan up, and the release layer looks it up again by the found plan's own id:
      with ids unique up to case it finds the same plan, in whatever orders. */
  lemma SecondLookupAgrees(services: Services, a: seq<string>, b: seq<string>, service: string, plan: string)
    requires UniqueUpToCase(services) && IsOrder(a, services.Keys) && IsOrder(b, services.Keys)
    requires Candidates(services, service, plan) != {}
    ensures var found := GetServicePlan(services, a, service, plan);
            GetServicePlan(services, b, service, found.id) == found
  {
    var c := Candidates(services, service, plan);
    LookupByCandidate(services, a, service, plan);
    FirstCandidate(services, a, c);
    var k := FirstKey(a, c).value;
    var found := FirstPlan(services[k].plans, plan).value;
    FirstPlanAgain(services[k].plans, plan);
    var d := Candidates(services, service, found.id);
    assert k in d;
    LookupByCandidate(services, b, service, found.id);
    FirstCandidate(services, b, d);
    assert FirstKey(b, d) == Some(k);
  }

  /** A missed lookup stays a miss exactly if no service with the id has a plan with an empty id. */
  lemma SecondLookupAfterMiss(services: Services, a: seq<string>, b: seq<string>, service: string, plan: string)
    requires IsOrder(a, services.Keys) && IsOrder(b, services.Keys)
    requires Candidates(services, service, plan) == {}
    ensures GetServicePlan(services, a, service, plan) == NO_PLAN
    ensures Candidates(services, service, NO_PLAN.id) == {} <==>
            forall k :: k in services && EqualFold(services[k].id, service) ==>
              forall i :: 0 <= i < |services[k].plans| ==> services[k].plans[i].id != ""
    ensures Candidates(services, service, NO_PLAN.id) == {} ==>
              GetServicePlan(services, b, service, NO_PLAN.id) == NO_PLAN
  {
    LookupByCandidate(services, a, service, plan);
    FirstCandidate(services, a, Candidates(services, service, plan));
    LookupByCandidate(services, b, service, "");
    FirstCandidate(services, b, Candidates(services, service, ""));
    forall k | k in services
      ensures FirstPlan(services[k].plans, "").None? <==>
              forall i :: 0 <= i < |services[k].plans| ==> services[k].plans[i].id != ""
    {
      NoEmptyPlanId(services[k].plans);
    }
    assert Candidates(services, service, "") == {} <==>
           forall k :: k in services ==> k !in Candidates(services, service, "");
  }

  lemma {:induction false} NoEmptyPlanId(plans: seq<Plan>)
    ensures FirstPlan(plans, "").None? <==> forall i :: 0 <= i < |plans| ==> plans[i].id != ""
  {
    if plans != [] {
      NoEmptyPlanId(plans[1..]);
      assert EqualFold(plans[0].id, "") <==> plans[0].id == "";
      assert forall i :: 0 < i < |plans| ==> plans[i] == plans[1..][i - 1];
    }
  }

  // ---------- chart and namespace ----------

  /** The plan's chart, or else the service's; an error if neither names one. */
  function GetChart(service: Service, plan: Plan): Option<string> {
    if plan.chart != "" then Some(plan.chart)
    else if service.chart != "" then Some(service.chart)
    else None
  }

  predicate Known(services: Services, service: string) {
    exists k :: k in services && EqualFold(services[k].id, service)
  }

  /** A known id is answered by one of its services, an unknown one by the zero service. */
  lemma {:induction false} ServiceFound(services: Services, order: seq<string>, service: string)
    requires forall k :: k in order ==> k in services
    ensures (exists k :: k in order && EqualFold(services[k].id, service)
                         && GetService(services, order, service) == services[k])
            || (GetService(services, order, service) == NO_SERVICE
                && forall k :: k in order ==> !EqualFold(services[k].id, service))
  {
    if order != [] && !EqualFold(services[order[0]].id, service) {
      ServiceFound(services, order[1..], service);
    }
  }

  /** The chart that `Install` asks for. It renders the service's template before it looks whether there is
      a chart, and the zero service of an unknown id has none, which is a run-time error. */
  function InstallChart(services: Services, service: string, found: Service, plan: Plan): Outcome<Option<string>> {
    if Known(services, service) then Return(GetChart(found, plan)) else Panic
  }

  /** A request for a plan the catalog does not have is not rejected: it gets the own chart of a service with
      the requested id, and fails only if that names none. Only an unknown service stops it, by a run-time
      error. */
  lemma UnknownPlanGetsServiceChart(services: Services, a: seq<string>, b: seq<string>, c: seq<string>,
                                    service: string, plan: string)
    requires IsOrder(a, services.Keys) && IsOrder(b, services.Keys) && IsOrder(c, services.Keys)
    requires Candidates(services, service, plan) == {} && Candidates(services, service, "") == {}
    ensures var first := GetServicePlan(services, a, service, plan);
            var s, p := GetService(services, b, service), GetServicePlan(services, c, service, first.id);
            && (Known(services, service) ==>
                  exists k :: k in services && EqualFold(services[k].id, service) && s == services[k])
            && InstallChart(services, service, s, p) ==
               if Known(services, service) then Return(if s.chart != "" then Some(s.chart) else None) else Panic
  {
    SecondLookupAfterMiss(services, a, c, service, plan);
    ServiceFound(services, b, service);
  }

  /** An installation of a plan the catalog has, with ids unique up to case: in all orders both lookups find
      that plan and its service, and the chart is the plan's, or else the service's. */
  lemma KnownPlanGetsItsChart(services: Services, a: seq<string>, b: seq<string>, c: seq<string>, k: string,
                              i: nat, service: string, plan: string)
    requires IsOrder(a, services.Keys) && IsOrder(b, services.Keys) && IsOrder(c, services.Keys)
    requires UniqueUpToCase(services) && k in services && EqualFold(services[k].id, service)
    requires FirstMatch(services[k].plans, plan, i)
    ensures var first := GetServicePlan(services, a, service, plan);
            var s, p := GetService(services, b, service), GetServicePlan(services, c, service, first.id);
            && s == services[k] && first == p == services[k].plans[i]
            && InstallChart(services, service, s, p) ==
               Return(if p.chart != "" then Some(p.chart) else if s.chart != "" then Some(s.chart) else None)
  {
    var n, j := PlanFound(services, a, service, plan);
    assert HasPlan(services[k], service, plan);
    var m :| 0 <= m < |a| && a[m] == k;
    assert n < |a| && a[n] == k;
    var l := FirstPlanAt(services[k].plans, plan);
    assert k in Candidates(services, service, plan);
    SecondLookupAgrees(services, a, c, service, plan);
    ServiceFound(services, b, service);
  }

  function KeysLike(context: map<string, string>, name: string): (keys: set<string>)
    ensures keys <= context.Keys
  {
    set k | k in context && EqualFold(k, name)
  }

  /** `getChartNamespace`: the context's namespace, or a name made from its organization, or nothing. */
  function GetChartNamespace(context: map<string, string>, first: seq<string>, second: seq<string>): string {
    var namespace := Search(context, first, KeysLike(context, "namespace"));
    var organization := Search(context, second, KeysLike(context, "organization_guid"));
    if namespace.Some? then namespace.value
    else if organization.Some? then "cf-" + organization.value
    else ""
  }

  /** Whatever the orders, it is the value of a key "namespace", up to case, or else "cf-" and the value of
      a key "organization_guid", or else nothing. */
  lemma NamespaceAnswer(context: map<string, string>, a: seq<string>, b: seq<string>)
    requires IsOrder(a, context.Keys) && IsOrder(b, context.Keys)
    ensures var namespace := GetChartNamespace(context, a, b);
            || (exists k :: k in context && EqualFold(k, "namespace") && namespace == context[k])
            || ((forall k :: k in context ==> !EqualFold(k, "namespace"))
                && exists k :: k in context && EqualFold(k, "organization_guid") && namespace == "cf-" + context[k])
            || ((forall k :: k in context ==> !EqualFold(k, "namespace") && !EqualFold(k, "organization_guid"))
                && namespace == "")
  {
    SearchFinds(context, a, KeysLike(context, "namespace"));
    SearchFinds(context, b, KeysLike(context, "organization_guid"));
  }

  ghost predicate NamespaceDetermined(context: map<string, string>) {
    forall a, b, c, d :: IsOrder(a, context.Keys) && IsOrder(b, context.Keys) && IsOrder(c, context.Keys)
                         && IsOrder(d, context.Keys) ==>
                           GetChartNamespace(context, a, b) == GetChartNamespace(context, c, d)
  }

  predicate OneValue(context: map<string, string>, keys: set<string>)
    requires keys <= context.Keys
  {
    forall j, k :: j in keys && k in keys ==> context[j] == context[k]
  }

  /** The namespace is the same in every map order if and only if the keys that decide it, those equal
      to "namespace" up to case or else those equal to "organization_guid", agree on the value. */
  lemma NamespaceOrderIndependence(context: map<string, string>)
    ensures NamespaceDetermined(context) <==>
            OneValue(context, if KeysLike(context, "namespace") != {} then KeysLike(context, "namespace")
                              else KeysLike(context, "organization_guid"))
  {
    var ns, org := KeysLike(context, "namespace"), KeysLike(context, "organization_guid");
    var deciding := if ns != {} then ns else org;
    if NamespaceDetermined(context) {
      forall j, k | j in deciding && k in deciding
        ensures context[j] == context[k]
      {
        var a := AnyKeyFirst(context.Keys, j);
        var b := AnyKeyFirst(context.Keys, k);
        NamespaceDecided(context, a, a, j);
        NamespaceDecided(context, b, b, k);
        assert GetChartNamespace(context, a, a) == GetChartNamespace(context, b, b);
        assert ns == {} ==> ("cf-" + context[j])[3..] == context[j] && ("cf-" + context[k])[3..] == context[k];
      }
    }
    if OneValue(context, deciding) {
      forall a, b, c, d | IsOrder(a, context.Keys) && IsOrder(b, context.Keys) && IsOrder(c, context.Keys)
                          && IsOrder(d, context.Keys)
        ensures GetChartNamespace(context, a, b) == GetChartNamespace(context, c, d)
      {
        SearchDetermined(context, ns);
        SearchDetermined(context, org);
        SearchFinds(context, a, ns);
        SearchFinds(context, c, ns);
        SearchFinds(context, b, org);
        SearchFinds(context, d, org);
      }
    }
  }

  lemma SearchFinds(context: map<string, string>, order: seq<string>, wanted: set<string>)
    requires IsOrder(order, context.Keys) && wanted <= context.Keys
    ensures Search(context, order, wanted).None? <==> wanted == {}
  {
  }

  lemma NamespaceDecided(context: map<string, string>, a: seq<string>, b: seq<string>, j: string)
    requires IsOrder(a, context.Keys) && IsOrder(b, context.Keys)
    requires a != [] && a[0] == j && b != [] && b[0] == j
    ensures j in KeysLike(context, "namespace") ==> GetChartNamespace(context, a, b) == context[j]
    ensures KeysLike(context, "namespace") == {} && j in KeysLike(context, "organization_guid") ==>
              GetChartNamespace(context, a, b) == "cf-" + context[j]
  {
  }
}
