/** Endpoints offered to credential templates: ports and addresses picked from a parsed status. */
module Endpoints {
  import opened Outcomes
  import opened Text
  import opened Decimal
  import opened Elastic
  import opened KubectlTables
  import opened Reports
  import opened StatusReport
  import opened Tables
  import opened Unordered
  import Ports

  // ---------- the invariant the parser establishes ----------

  predicate WellPorted(s: Service) {
    Ports.WellPorted(Ports.PortMaps(s.clusterPorts, s.nodePorts))
  }

  predicate WellFormed(t: Tally) {
    && (forall i :: 0 <= i < |t.services| ==> WellPorted(t.services[i]))
    && (forall i :: 0 <= i < |t.ingresses| ==> t.ingresses[i].hosts != [])
  }

  lemma ServicesWellPorted(names: seq<string>, kinds: seq<string>, externalIPs: seq<string>,
                           ports: seq<string>)
    ensures var r := MakeServices(names, kinds, externalIPs, ports);
            r.Return? ==> forall i :: 0 <= i < |r.value| ==> WellPorted(r.value[i])
  {
    forall cell: string
      ensures Ports.WellPorted(Ports.PortsOf(Split(cell, ',')))
    {
      Ports.ParsedPortsWellPorted(Split(cell, ','));
    }
  }

  lemma AddWellFormed(a: Tally, b: Tally)
    requires WellFormed(a) && WellFormed(b)
    ensures WellFormed(Add(a, b))
  {
  }

  lemma FirstPartsWellFormed(r: Registers, line: string)
    ensures WorkloadPart(r, line).Return? ==> WellFormed(WorkloadPart(r, line).value.tally)
    ensures IngressPart(r, line).Return? ==> WellFormed(IngressPart(r, line).value.tally)
  {
  }

  lemma LineWellFormed(r: Registers, line: string)
    ensures ReadLine(r, line).Return? ==> WellFormed(ReadLine(r, line).value.tally)
  {
    var reset := if line == "" then RESET else r;
    var w := WorkloadPart(reset, line);
    if w.Return? {
      var i := IngressPart(w.value.regs, line);
      if i.Return? {
        var s := ServicePart(i.value.regs, line);
        FirstPartsWellFormed(reset, line);
        FirstPartsWellFormed(w.value.regs, line);
        ServicePartWellFormed(i.value.regs, line);
        if s.Return? {
          AddWellFormed(w.value.tally, i.value.tally);
          AddWellFormed(Add(w.value.tally, i.value.tally), s.value.tally);
        }
      }
    }
  }

  lemma ServicePartWellFormed(r: Registers, line: string)
    ensures ServicePart(r, line).Return? ==> WellFormed(ServicePart(r, line).value.tally)
  {
    if !IsServiceHeader(line) && InServices(r) {
      var names, kinds := FieldsBetween(line, r.name, r.kind), FieldsBetween(line, r.kind, r.clusterIP);
      var externalIPs, ports := FieldsBetween(line, r.externalIP, r.port), FieldsBetween(line, r.port, r.age);
      if names.Return? && kinds.Return? && externalIPs.Return? && ports.Return? {
        ServicesWellPorted(names.value, kinds.value, externalIPs.value, ports.value);
      }
    }
  }

  lemma {:induction false} RunWellFormed(lines: seq<string>, st: State)
    requires WellFormed(st.tally)
    ensures Run(lines, st).Return? ==> WellFormed(Run(lines, st).value.tally)
  {
    if lines != [] && Step(st, lines[0]).Return? {
      LineWellFormed(st.regs, lines[0]);
      RunWellFormed(lines[1..], Step(st, lines[0]).value);
    }
  }

  /** Whatever text is read: cluster ports map to themselves, node ports belong to cluster ports, and
      every ingress has a host. */
  lemma ParsedStatusWellFormed(lines: seq<string>)
    ensures ReadSection(lines).Return? ==> WellFormed(ReadSection(lines).value)
  {
    RunWellFormed(lines, INITIAL);
  }

  // ---------- Port ----------

  function Matching(m: map<int, int>, port: seq<int>): (keys: set<int>)
    ensures keys <= m.Keys
  {
    if port == [] then m.Keys else m.Keys * {port[0]}
  }

  /** `clusterVars.Port`, with the iteration orders of its three loops. */
  function Port(services: seq<Service>, port: seq<int>, first: seq<int>, second: seq<int>,
                third: seq<int>): string
  {
    if services == [] then
      ""
    else
      var s := services[0];
      var loadBalanced := if s.serviceType == "LoadBalancer"
                          then Search(s.clusterPorts, first, Matching(s.clusterPorts, port)) else None;
      var byNode := Search(s.nodePorts, second, Matching(s.nodePorts, port));
      var byCluster := Search(s.clusterPorts, third, Matching(s.clusterPorts, port));
      if loadBalanced.Some? then Itoa(loadBalanced.value)
      else if byNode.Some? then Itoa(byNode.value)
      else if byCluster.Some? then Itoa(byCluster.value)
      else if port != [] then Itoa(port[0])
      else ""
  }

  /** `first`, `second` and `third` are iteration orders of the maps they range over. */
  ghost predicate PortOrders(s: Service, first: seq<int>, second: seq<int>, third: seq<int>) {
    && IsOrder(first, s.clusterPorts.Keys) && IsOrder(second, s.nodePorts.Keys)
    && IsOrder(third, s.clusterPorts.Keys)
  }

  /** For a well-ported first service, a requested port is answered by its node port, if it has one and
      the service is no load balancer, and by itself otherwise, in every iteration order. */
  lemma RequestedPort(services: seq<Service>, port: seq<int>, first: seq<int>, second: seq<int>,
                      third: seq<int>)
    requires services != [] && WellPorted(services[0]) && port != []
    requires PortOrders(services[0], first, second, third)
    ensures var s, p := services[0], port[0];
            Port(services, port, first, second, third) ==
            if s.serviceType != "LoadBalancer" && p in s.nodePorts then Itoa(s.nodePorts[p]) else Itoa(p)
  {
  }

  /** The map an unspecified port is taken from. */
  function Consulted(s: Service): map<int, int> {
    if s.serviceType == "LoadBalancer" && s.clusterPorts.Keys != {} then s.clusterPorts
    else if s.nodePorts.Keys != {} then s.nodePorts
    else s.clusterPorts
  }

  ghost predicate PortIsDetermined(services: seq<Service>, port: seq<int>)
    requires services != []
  {
    forall a, b, c, a', b', c' ::
      PortOrders(services[0], a, b, c) && PortOrders(services[0], a', b', c') ==>
        Port(services, port, a, b, c) == Port(services, port, a', b', c')
  }

  /** Without a requested port the answer comes from the consulted map, under some key `k`. */
  lemma UnspecifiedPort(services: seq<Service>, a: seq<int>, b: seq<int>, c: seq<int>) returns (k: int)
    requires services != [] && PortOrders(services[0], a, b, c)
    ensures var m, answer := Consulted(services[0]), Port(services, [], a, b, c);
            if m.Keys == {} then answer == "" else k in m && answer == Itoa(m[k])
  {
    var s := services[0];
    SearchAny(s.clusterPorts, a);
    SearchAny(s.nodePorts, b);
    SearchAny(s.clusterPorts, c);
    k := if Consulted(s).Keys == {} then 0
         else if s.serviceType == "LoadBalancer" && s.clusterPorts.Keys != {} then a[0]
         else if s.nodePorts.Keys != {} then b[0]
         else c[0];
  }

  /** Without a requested port a load balancer answers with one of its cluster ports, any other service with
      one of its node ports, or for want of any with one of its cluster ports; nothing else is an answer. */
  lemma UnspecifiedPortAnswer(services: seq<Service>, a: seq<int>, b: seq<int>, c: seq<int>)
    requires services != [] ==> PortOrders(services[0], a, b, c)
    ensures var answer := Port(services, [], a, b, c);
            if services == [] then answer == ""
            else
              var s := services[0];
              if s.nodePorts.Keys != {} && (s.serviceType != "LoadBalancer" || s.clusterPorts.Keys == {})
              then LegalPort(s.nodePorts, answer)
              else LegalPort(s.clusterPorts, answer)
  {
    if services != [] {
      var _ := UnspecifiedPort(services, a, b, c);
    }
  }

  /** Without a requested port the answer is determined if and only if the consulted map holds at most
      one distinct port number. */
  lemma UnspecifiedPortDetermined(services: seq<Service>)
    requires services != []
    ensures PortIsDetermined(services, []) <==>
            forall j, k :: j in Consulted(services[0]) && k in Consulted(services[0]) ==>
              Consulted(services[0])[j] == Consulted(services[0])[k]
  {
    var s := services[0];
    var m := Consulted(s);
    if PortIsDetermined(services, []) {
      forall j, k | j in m && k in m
        ensures m[j] == m[k]
      {
        var a := PortMayBe(services, j);
        var b := PortMayBe(services, k);
        assert Port(services, [], a.0, a.1, a.2) == Port(services, [], b.0, b.1, b.2);
        ItoaInjective(m[j], m[k]);
      }
    }
    if forall j, k :: j in m && k in m ==> m[j] == m[k] {
      forall a, b, c, a', b', c' | PortOrders(s, a, b, c) && PortOrders(s, a', b', c')
        ensures Port(services, [], a, b, c) == Port(services, [], a', b', c')
      {
        var _ := UnspecifiedPort(services, a, b, c);
        var _ := UnspecifiedPort(services, a', b', c');
      }
    }
  }

  /** Some iteration order answers with the port stored under `k`. */
  lemma PortMayBe(services: seq<Service>, k: int) returns (orders: (seq<int>, seq<int>, seq<int>))
    requires services != [] && k in Consulted(services[0])
    ensures PortOrders(services[0], orders.0, orders.1, orders.2)
    ensures Port(services, [], orders.0, orders.1, orders.2) == Itoa(Consulted(services[0])[k])
  {
    var s := services[0];
    var c := OrderExists(s.clusterPorts.Keys);
    var n := OrderExists(s.nodePorts.Keys);
    if k in s.clusterPorts {
      c := AnyKeyFirst(s.clusterPorts.Keys, k);
    }
    if k in s.nodePorts {
      n := AnyKeyFirst(s.nodePorts.Keys, k);
    }
    orders := (c, n, c);
  }

  lemma TwoPortsUndetermined(services: seq<Service>, j: int, k: int)
    requires services != [] && WellPorted(services[0]) && services[0].serviceType == "LoadBalancer"
    requires j in services[0].clusterPorts && k in services[0].clusterPorts && j != k
    ensures !PortIsDetermined(services, [])
  {
    UnspecifiedPortDetermined(services);
    assert j in Consulted(services[0]) && k in Consulted(services[0]);
  }

  /** Whatever printed table of services is read: if its first row is a load balancer with two different
      ports, the port a template gets without asking for one depends on the map order. */
  lemma PrintedLoadBalancerUndetermined(t: Table, es: seq<ServiceEntry>, j: int, k: int)
    requires ListsServices(t, es) && es != [] && es[0].kind == "LoadBalancer"
    requires j in Ports.ClusterPorts(es[0].ports) && k in Ports.ClusterPorts(es[0].ports) && j != k
    ensures ValidReport([t])
    ensures var r := ReadSection(ScanLines(FormatResources(PrintReport([t]))));
            r.Return? && r.value.services != [] && !PortIsDetermined(r.value.services, [])
  {
    ServicesReadBack(t, es);
    ServiceWellPorted(es[0]);
    TwoPortsUndetermined(ServicesOf(es), j, k);
  }

  lemma ServiceWellPorted(e: ServiceEntry)
    ensures WellPorted(ServiceOf(e))
  {
    Ports.ParsedPortsWellPorted(Split(Ports.PrintPorts(e.ports), ','));
  }

  const LOAD_BALANCER := "LoadBalancer"
  const ADDRESS_CELL := "10.0.0.1"
  const PROTOCOL := "TCP"
  const TITLE := "v1/Service"

  lemma CellsAreOrdinary()
    ensures Ordinary(LOAD_BALANCER) && Ordinary(ADDRESS_CELL) && Word(LOAD_BALANCER) && Word(ADDRESS_CELL)
    ensures Ordinary(RESOURCE_PREFIX + TITLE)
  {
    OrdinaryWord(LOAD_BALANCER);
    OrdinaryWord(ADDRESS_CELL);
    OrdinaryTitle(TITLE);
  }

  /** There is such a report, for any two ports. */
  lemma LoadBalancerWithTwoPorts(j: Int, k: Int) returns (t: Table)
    requires j != k
    ensures ValidReport([t])
    ensures var r := ReadSection(ScanLines(FormatResources(PrintReport([t]))));
            r.Return? && r.value.services != [] && !PortIsDetermined(r.value.services, [])
  {
    var ports := [Ports.Entry(j, None, PROTOCOL), Ports.Entry(k, None, PROTOCOL)];
    var e := ServiceEntry(WEB, LOAD_BALANCER, ADDRESS_CELL, ADDRESS_CELL, ports, SECONDS, WIDE);
    SampleTextsAreOrdinary();
    CellsAreOrdinary();
    ServicePrints(e);
    ServiceTablePrints(TITLE, [e]);
    t := ServiceTable(TITLE, [e]);
    assert ports[0] in ports && ports[1] in ports;
    PrintedLoadBalancerUndetermined(t, [e], j, k);
  }

  /** On every status with a service, whatever text it was read from, a requested port is answered alike
      in every map order. */
  lemma ParsedPortAnswer(resources: string, name: string, namespace: string, lastDeployment: int, timeout: int,
                         now: int, code: Code, port: seq<int>, a: seq<int>, b: seq<int>, c: seq<int>)
    requires var r := StatusOf(name, namespace, lastDeployment, timeout, now, code, resources);
             && r.Return? && r.value.services != [] && port != []
             && PortOrders(r.value.services[0], a, b, c)
    ensures var services := StatusOf(name, namespace, lastDeployment, timeout, now, code, resources).value.services;
            var s, p := services[0], port[0];
            Port(services, port, a, b, c) ==
            if s.serviceType != "LoadBalancer" && p in s.nodePorts then Itoa(s.nodePorts[p]) else Itoa(p)
  {
    StatusWellFormed(resources);
    RequestedPort(StatusOf(name, namespace, lastDeployment, timeout, now, code, resources).value.services,
                  port, a, b, c);
  }

  lemma StatusWellFormed(resources: string)
    ensures Reading(resources).Return? ==> WellFormed(Reading(resources).value)
  {
    var lines := ScanLines(FormatResources(resources));
    StreamingIsSectionwise(lines);
    ParsedStatusWellFormed(lines);
  }

  /** The first service of a printed table of services: a requested port is answered by the last node port
      printed for it, if there is one and the service is no load balancer, and by itself otherwise. */
  lemma PrintedPortAnswer(t: Table, es: seq<ServiceEntry>, name: string, namespace: string, lastDeployment: int,
                          timeout: int, now: int, code: Code, p: int, a: seq<int>, b: seq<int>, c: seq<int>)
    requires ListsServices(t, es) && es != []
    ensures WellPrinted(t)
    ensures var r := StatusOf(name, namespace, lastDeployment, timeout, now, code, PrintReport([t]));
            && r.Return? && r.value.services != []
            && (PortOrders(r.value.services[0], a, b, c) ==>
                  Port(r.value.services, [p], a, b, c) ==
                  var node := Ports.LastNodePort(es[0].ports, p);
                  if es[0].kind != "LoadBalancer" && node.Some? then Itoa(node.value) else Itoa(p))
  {
    StatusOfServices(t, es, name, namespace, lastDeployment, timeout, now, code);
    var services := StatusOf(name, namespace, lastDeployment, timeout, now, code, PrintReport([t])).value.services;
    assert IsServiceOf(services[0], es[0]);
    if PortOrders(services[0], a, b, c) {
      ParsedPortAnswer(PrintReport([t]), name, namespace, lastDeployment, timeout, now, code, [p], a, b, c);
    }
  }

  // ---------- ingress address ----------

  /** `ingressAddress`: the first host of the first ingress. */
  function IngressAddress(ingresses: seq<Ingress>): Outcome<string> {
    if ingresses == [] then Return("")
    else if ingresses[0].hosts == [] then Panic
    else Return(ingresses[0].hosts[0])
  }

  /** On every status, whatever text it was read from, the host index is in range. */
  lemma ParsedIngressAddressInRange(resources: string, name: string, namespace: string, lastDeployment: int,
                                    timeout: int, now: int, code: Code)
    requires StatusOf(name, namespace, lastDeployment, timeout, now, code, resources).Return?
    ensures var status := StatusOf(name, namespace, lastDeployment, timeout, now, code, resources).value;
            IngressAddress(status.ingresses).Return?
  {
    StatusWellFormed(resources);
  }

  /** For a printed table of ingresses it is the first printed host of the first row. */
  lemma PrintedIngressAddress(t: Table, es: seq<PendingIngress>, name: string, namespace: string,
                              lastDeployment: int, timeout: int, now: int, code: Code)
    requires ListsIngresses(t, es) && es != []
    ensures WellPrinted(t) && es[0].hosts != []
    ensures var r := StatusOf(name, namespace, lastDeployment, timeout, now, code, PrintReport([t]));
            r.Return? && IngressAddress(r.value.ingresses) == Return(es[0].hosts[0])
  {
    StatusOfIngresses(t, es, name, namespace, lastDeployment, timeout, now, code);
    assert LineOf(t.lines[1], es[0]);
  }

  // ---------- the high-availability address ----------

  datatype Node = Node(externalIP: string, internalIP: string)

  /** The last internal address, or else the last external one, or else nothing. */
  function NodeIP(nodes: seq<Node>): string {
    var internal := LastNonEmpty(seq(|nodes|, i requires 0 <= i < |nodes| => nodes[i].internalIP));
    if internal != "" then internal
    else LastNonEmpty(seq(|nodes|, i requires 0 <= i < |nodes| => nodes[i].externalIP))
  }

  function LastNonEmpty(texts: seq<string>): string {
    if texts == [] then ""
    else if texts[|texts| - 1] != "" then texts[|texts| - 1]
    else LastNonEmpty(texts[..|texts| - 1])
  }

  /** The internal address of the last node that has one; if none has, the external address of the last
      node that has one; if none has either, nothing. */
  ghost predicate IsNodeIP(nodes: seq<Node>, ip: string) {
    || (exists i :: 0 <= i < |nodes| && nodes[i].internalIP == ip && ip != ""
                    && forall k :: i < k < |nodes| ==> nodes[k].internalIP == "")
    || ((forall k :: 0 <= k < |nodes| ==> nodes[k].internalIP == "")
        && exists i :: 0 <= i < |nodes| && nodes[i].externalIP == ip && ip != ""
                       && forall k :: i < k < |nodes| ==> nodes[k].externalIP == "")
    || ((forall k :: 0 <= k < |nodes| ==> nodes[k].internalIP == "" && nodes[k].externalIP == "") && ip == "")
  }

  lemma {:induction false} LastNonEmptyAt(texts: seq<string>) returns (i: nat)
    ensures LastNonEmpty(texts) == "" ==> forall k :: 0 <= k < |texts| ==> texts[k] == ""
    ensures LastNonEmpty(texts) != "" ==>
              i < |texts| && texts[i] == LastNonEmpty(texts) && forall k :: i < k < |texts| ==> texts[k] == ""
  {
    i := 0;
    if texts != [] {
      if texts[|texts| - 1] != "" {
        i := |texts| - 1;
      } else {
        i := LastNonEmptyAt(texts[..|texts| - 1]);
      }
    }
  }

  lemma NodeIPExactly(nodes: seq<Node>)
    ensures IsNodeIP(nodes, NodeIP(nodes))
  {
    var internals := seq(|nodes|, i requires 0 <= i < |nodes| => nodes[i].internalIP);
    var externals := seq(|nodes|, i requires 0 <= i < |nodes| => nodes[i].externalIP);
    var i := LastNonEmptyAt(internals);
    var e := LastNonEmptyAt(externals);
    assert forall k :: 0 <= k < |nodes| ==> internals[k] == nodes[k].internalIP && externals[k] == nodes[k].externalIP;
  }

  method PickNodeIP(nodes: seq<Node>) returns (ip: string)
    ensures ip == NodeIP(nodes) && IsNodeIP(nodes, ip)
  {
    NodeIPExactly(nodes);
    ip := "";
    ghost var externals := seq(|nodes|, i requires 0 <= i < |nodes| => nodes[i].externalIP);
    ghost var internals := seq(|nodes|, i requires 0 <= i < |nodes| => nodes[i].internalIP);
    for i := 0 to |nodes|
      invariant ip == LastNonEmpty(externals[..i])
    {
      assert externals[..i + 1][..i] == externals[..i];
      if |nodes[i].externalIP| > 0 {
        ip := nodes[i].externalIP;
      }
    }
    assert externals[..|nodes|] == externals && internals[..|nodes|] == internals;
    for i := 0 to |nodes|
      invariant ip == if LastNonEmpty(internals[..i]) != "" then LastNonEmpty(internals[..i])
                      else LastNonEmpty(externals)
    {
      assert internals[..i + 1][..i] == internals[..i];
      if |nodes[i].internalIP| > 0 {
        ip := nodes[i].internalIP;
      }
    }
  }

  /** The map whose last visited port goes into the address. */
  function AddressPorts(s: Service): map<int, int> {
    if s.serviceType == "NodePort" then s.nodePorts else s.clusterPorts
  }

  /** The text left over after a loop over the map: nothing, or one of its ports. */
  ghost predicate LegalPort(m: map<int, int>, port: string) {
    if m.Keys == {} then port == "" else exists k :: k in m && port == Itoa(m[k])
  }

  ghost predicate LegalPorts(services: seq<Service>, ports: seq<string>) {
    |ports| == |services| && forall i :: 0 <= i < |services| ==> LegalPort(AddressPorts(services[i]), ports[i])
  }

  method LastPort(m: map<int, int>) returns (port: string)
    ensures LegalPort(m, port)
  {
    port := "";
    var keys := m.Keys;
    while keys != {}
      invariant keys <= m.Keys
      invariant if keys == m.Keys then port == "" else exists k :: k in m && port == Itoa(m[k])
    {
      var k := PickKey(keys);
      port := Itoa(m[k]);
      keys := keys - {k};
    }
  }

  /** The service's address: none unless it is of a handled type. */
  function AddressOf(s: Service, port: string, namespace: string, dns: string, ip: string): seq<string> {
    if s.serviceType == "ClusterIP" then [s.name + "." + namespace + "." + dns + ":" + port]
    else if s.serviceType == "NodePort" then [ip + ":" + port]
    else if s.serviceType == "LoadBalancer" then [s.externalIP + ":" + port]
    else []
  }

  predicate Handled(s: Service) {
    s.serviceType == "ClusterIP" || s.serviceType == "NodePort" || s.serviceType == "LoadBalancer"
  }

  /** What each service contributes, in order. */
  function AddressParts(services: seq<Service>, ports: seq<string>, namespace: string, dns: string,
                        ip: string): (parts: seq<seq<string>>)
    requires |services| == |ports|
    ensures |parts| == |services|
  {
    seq(|services|, i requires 0 <= i < |services| => AddressOf(services[i], ports[i], namespace, dns, ip))
  }

  function Flatten(parts: seq<seq<string>>): seq<string> {
    if parts == [] then [] else parts[0] + Flatten(parts[1..])
  }

  lemma {:induction false} FlattenAcross(a: seq<seq<string>>, b: seq<seq<string>>)
    ensures Flatten(a + b) == Flatten(a) + Flatten(b)
  {
    if a == [] {
      assert a + b == b;
    } else {
      assert (a + b)[1..] == a[1..] + b;
      FlattenAcross(a[1..], b);
    }
  }

  function Addresses(services: seq<Service>, ports: seq<string>, namespace: string, dns: string,
                     ip: string): seq<string>
    requires |services| == |ports|
  {
    Flatten(AddressParts(services, ports, namespace, dns, ip))
  }

  lemma AddressesStep(services: seq<Service>, ports: seq<string>, s: Service, port: string, namespace: string,
                      dns: string, ip: string)
    requires |services| == |ports|
    ensures Addresses(services + [s], ports + [port], namespace, dns, ip)
            == Addresses(services, ports, namespace, dns, ip) + AddressOf(s, port, namespace, dns, ip)
  {
    var last := AddressOf(s, port, namespace, dns, ip);
    assert AddressParts(services + [s], ports + [port], namespace, dns, ip)
           == AddressParts(services, ports, namespace, dns, ip) + [last];
    FlattenAcross(AddressParts(services, ports, namespace, dns, ip), [last]);
    assert Flatten([last]) == last;
  }

  function DnsOf(clusterDns: Option<string>): string {
    if clusterDns.Some? then clusterDns.value else ""
  }

  predicate NeedsDns(services: seq<Service>) {
    exists i :: 0 <= i < |services| && services[i].serviceType == "ClusterIP"
  }

  /** The address for one choice of ports: without a cluster DNS name, a single ClusterIP service
      empties it. */
  function HAAddress(nodes: seq<Node>, services: seq<Service>, namespace: string, clusterDns: Option<string>,
                     ports: seq<string>): string
    requires |services| == |ports|
  {
    if clusterDns.None? && NeedsDns(services) then ""
    else Join(Addresses(services, ports, namespace, DnsOf(clusterDns), NodeIP(nodes)), ',')
  }

  lemma {:induction false} LegalPortsExist(services: seq<Service>) returns (ports: seq<string>)
    ensures LegalPorts(services, ports)
  {
    if services == [] {
      ports := [];
    } else {
      var n := |services| - 1;
      var m := AddressPorts(services[n]);
      var rest := LegalPortsExist(services[..n]);
      var port := "";
      if m.Keys != {} {
        var k := SomeKey(m.Keys);
        port := Itoa(m[k]);
      }
      ports := rest + [port];
    }
  }

  // ---------- what an address looks like ----------

  /** A ClusterIP service is addressed by its name in the cluster's DNS, a NodePort service at a node, a
      LoadBalancer service at its external address, each with one of its ports. */
  ghost predicate AddressFor(s: Service, part: string, nodes: seq<Node>, namespace: string, dns: string) {
    || (s.serviceType == "ClusterIP" && exists port ::
          LegalPort(s.clusterPorts, port) && part == s.name + "." + namespace + "." + dns + ":" + port)
    || (s.serviceType == "NodePort" && exists port, ip ::
          LegalPort(s.nodePorts, port) && IsNodeIP(nodes, ip) && part == ip + ":" + port)
    || (s.serviceType == "LoadBalancer" && exists port ::
          LegalPort(s.clusterPorts, port) && part == s.externalIP + ":" + port)
  }

  /** One part for each service of a handled type, in order. */
  ghost predicate ListsAddresses(services: seq<Service>, parts: seq<string>, nodes: seq<Node>, namespace: string,
                                 dns: string)
  {
    if services == [] then
      parts == []
    else if Handled(services[0]) then
      && parts != [] && AddressFor(services[0], parts[0], nodes, namespace, dns)
      && ListsAddresses(services[1..], parts[1..], nodes, namespace, dns)
    else
      ListsAddresses(services[1..], parts, nodes, namespace, dns)
  }

  lemma OwnAddress(s: Service, port: string, nodes: seq<Node>, namespace: string, dns: string)
    requires LegalPort(AddressPorts(s), port)
    ensures var own := AddressOf(s, port, namespace, dns, NodeIP(nodes));
            if Handled(s) then |own| == 1 && AddressFor(s, own[0], nodes, namespace, dns) else own == []
  {
    NodeIPExactly(nodes);
  }

  lemma {:induction false} AddressesSpelled(services: seq<Service>, ports: seq<string>, nodes: seq<Node>,
                                            namespace: string, dns: string)
    requires LegalPorts(services, ports)
    ensures ListsAddresses(services, Addresses(services, ports, namespace, dns, NodeIP(nodes)), nodes, namespace, dns)
  {
    if services != [] {
      var ip := NodeIP(nodes);
      var own := AddressOf(services[0], ports[0], namespace, dns, ip);
      assert LegalPort(AddressPorts(services[0]), ports[0]);
      OwnAddress(services[0], ports[0], nodes, namespace, dns);
      assert AddressParts(services, ports, namespace, dns, ip)[1..]
             == AddressParts(services[1..], ports[1..], namespace, dns, ip);
      AddressesSpelled(services[1..], ports[1..], nodes, namespace, dns);
      var rest := Addresses(services[1..], ports[1..], namespace, dns, ip);
      assert Addresses(services, ports, namespace, dns, ip) == own + rest;
      assert own == [] ==> own + rest == rest;
      assert own != [] ==> (own + rest)[1..] == rest;
    }
  }

  /** `extractHAAddress`. */
  method ExtractHAAddress(nodes: seq<Node>, services: seq<Service>, namespace: string,
                          clusterDns: Option<string>) returns (r: string)
    ensures exists ports :: LegalPorts(services, ports)
                            && r == HAAddress(nodes, services, namespace, clusterDns, ports)
    ensures clusterDns.None? && NeedsDns(services) ==> r == ""
    ensures clusterDns.Some? || !NeedsDns(services) ==>
              exists parts :: r == Join(parts, ',')
                              && ListsAddresses(services, parts, nodes, namespace, DnsOf(clusterDns))
  {
    var addresses := [];
    ghost var ports := [];
    ghost var dns, ip := DnsOf(clusterDns), NodeIP(nodes);
    for i := 0 to |services|
      invariant LegalPorts(services[..i], ports)
      invariant clusterDns.None? ==> !NeedsDns(services[..i])
      invariant addresses == Addresses(services[..i], ports, namespace, dns, ip)
    {
      var service := services[i];
      if service.serviceType == "ClusterIP" && clusterDns.None? {
        ports := LegalPortsExist(services);
        return "";
      }
      var port := LastPort(AddressPorts(service));
      assert services[..i + 1] == services[..i] + [service];
      AddressesStep(services[..i], ports, service, port, namespace, dns, ip);
      LegalPortsStep(services[..i], ports, service, port);
      ports := ports + [port];
      if service.serviceType == "ClusterIP" {
        addresses := addresses + [service.name + "." + namespace + "." + clusterDns.value + ":" + port];
      } else if service.serviceType == "NodePort" {
        var nodeIP := PickNodeIP(nodes);
        addresses := addresses + [nodeIP + ":" + port];
      } else if service.serviceType == "LoadBalancer" {
        addresses := addresses + [service.externalIP + ":" + port];
      }
    }
    assert services[..|services|] == services;
    AddressesSpelled(services, ports, nodes, namespace, dns);
    r := Join(addresses, ',');
  }

  lemma LegalPortsStep(services: seq<Service>, ports: seq<string>, s: Service, port: string)
    requires LegalPorts(services, ports) && LegalPort(AddressPorts(s), port)
    ensures LegalPorts(services + [s], ports + [port])
  {
  }

  predicate SinglePort(m: map<int, int>) {
    forall j, k :: j in m && k in m ==> m[j] == m[k]
  }

  ghost predicate HAAddressIsDetermined(nodes: seq<Node>, services: seq<Service>, namespace: string,
                                        clusterDns: Option<string>)
  {
    forall a, b :: LegalPorts(services, a) && LegalPorts(services, b) ==>
                     HAAddress(nodes, services, namespace, clusterDns, a)
                     == HAAddress(nodes, services, namespace, clusterDns, b)
  }

  /** One service's part of the addresses. */
  lemma AddressesAround(services: seq<Service>, ports: seq<string>, i: nat, port: string, namespace: string,
                        dns: string, ip: string)
    requires i < |services| == |ports|
    ensures var parts := AddressParts(services, ports, namespace, dns, ip);
            Addresses(services, ports[i := port], namespace, dns, ip)
            == Flatten(parts[..i]) + AddressOf(services[i], port, namespace, dns, ip) + Flatten(parts[i + 1..])
  {
    var parts, own := AddressParts(services, ports, namespace, dns, ip),
                      AddressOf(services[i], port, namespace, dns, ip);
    assert AddressParts(services, ports[i := port], namespace, dns, ip) == parts[..i] + [own] + parts[i + 1..];
    FlattenAcross(parts[..i] + [own], parts[i + 1..]);
    FlattenAcross(parts[..i], [own]);
    assert Flatten([own]) == own;
  }

  lemma SameAddresses(services: seq<Service>, a: seq<string>, b: seq<string>, namespace: string, dns: string,
                      ip: string)
    requires LegalPorts(services, a) && LegalPorts(services, b)
    requires forall i :: 0 <= i < |services| && Handled(services[i]) ==> SinglePort(AddressPorts(services[i]))
    ensures Addresses(services, a, namespace, dns, ip) == Addresses(services, b, namespace, dns, ip)
  {
    forall i | 0 <= i < |services|
      ensures AddressOf(services[i], a[i], namespace, dns, ip) == AddressOf(services[i], b[i], namespace, dns, ip)
    {
      assert LegalPort(AddressPorts(services[i]), a[i]) && LegalPort(AddressPorts(services[i]), b[i]);
    }
    assert AddressParts(services, a, namespace, dns, ip) == AddressParts(services, b, namespace, dns, ip);
  }

  /** Joined texts that differ in one part differ. */
  lemma {:induction false} JoinInjective(x: seq<string>, u: string, v: string, y: seq<string>, c: char)
    requires Join(x + [u] + y, c) == Join(x + [v] + y, c)
    ensures u == v
  {
    if x == [] {
      assert x + [u] + y == [u] + y && x + [v] + y == [v] + y;
      assert ([u] + y)[1..] == y && ([v] + y)[1..] == y;
      if y != [] {
        SuffixCancels(u, v, [c] + Join(y, c));
        assert u + [c] + Join(y, c) == u + ([c] + Join(y, c)) && v + [c] + Join(y, c) == v + ([c] + Join(y, c));
      }
    } else {
      assert (x + [u] + y)[1..] == x[1..] + [u] + y && (x + [v] + y)[1..] == x[1..] + [v] + y;
      PrefixCancels(x[0] + [c], Join(x[1..] + [u] + y, c), Join(x[1..] + [v] + y, c));
      JoinInjective(x[1..], u, v, y, c);
    }
  }

  lemma SuffixCancels(u: string, v: string, s: string)
    ensures u + s == v + s ==> u == v
  {
    if u + s == v + s {
      assert (u + s)[..|u|] == u && (v + s)[..|v|] == v;
    }
  }

  lemma PrefixCancels(p: string, u: string, v: string)
    ensures p + u == p + v ==> u == v
  {
    assert (p + u)[|p|..] == u && (p + v)[|p|..] == v;
  }

  /** Two ports for a handled service give two addresses. */
  lemma TwoPortsTwoAddresses(services: seq<Service>, ports: seq<string>, i: nat, p: string, q: string,
                             namespace: string, dns: string, ip: string)
    requires i < |services| == |ports| && Handled(services[i])
    requires Join(Addresses(services, ports[i := p], namespace, dns, ip), ',')
             == Join(Addresses(services, ports[i := q], namespace, dns, ip), ',')
    ensures p == q
  {
    AddressesAround(services, ports, i, p, namespace, dns, ip);
    AddressesAround(services, ports, i, q, namespace, dns, ip);
    var u, v := AddressOf(services[i], p, namespace, dns, ip), AddressOf(services[i], q, namespace, dns, ip);
    assert u == [u[0]] && v == [v[0]];
    var parts := AddressParts(services, ports, namespace, dns, ip);
    JoinInjective(Flatten(parts[..i]), u[0], v[0], Flatten(parts[i + 1..]), ',');
    SamePort(services[i], p, q, namespace, dns, ip);
  }

  lemma TwoPortsUndetermineAddress(nodes: seq<Node>, services: seq<Service>, namespace: string,
                                   clusterDns: Option<string>, i: nat, j: int, k: int)
    requires i < |services| && Handled(services[i]) && (clusterDns.Some? || !NeedsDns(services))
    requires j in AddressPorts(services[i]) && k in AddressPorts(services[i])
    requires AddressPorts(services[i])[j] != AddressPorts(services[i])[k]
    ensures !HAAddressIsDetermined(nodes, services, namespace, clusterDns)
  {
    var ports := LegalPortsExist(services);
    var p, q := Itoa(AddressPorts(services[i])[j]), Itoa(AddressPorts(services[i])[k]);
    assert LegalPorts(services, ports[i := p]) && LegalPorts(services, ports[i := q]);
    if HAAddressIsDetermined(nodes, services, namespace, clusterDns) {
      assert HAAddress(nodes, services, namespace, clusterDns, ports[i := p])
             == HAAddress(nodes, services, namespace, clusterDns, ports[i := q]);
      TwoPortsTwoAddresses(services, ports, i, p, q, namespace, DnsOf(clusterDns), NodeIP(nodes));
      ItoaInjective(AddressPorts(services[i])[j], AddressPorts(services[i])[k]);
    }
  }

  lemma SamePort(s: Service, p: string, q: string, namespace: string, dns: string, ip: string)
    requires Handled(s) && AddressOf(s, p, namespace, dns, ip) == AddressOf(s, q, namespace, dns, ip)
    ensures p == q
  {
    var host := if s.serviceType == "ClusterIP" then s.name + "." + namespace + "." + dns + ":"
                else if s.serviceType == "NodePort" then ip + ":" else s.externalIP + ":";
    assert AddressOf(s, p, namespace, dns, ip)[0] == host + p;
    assert AddressOf(s, q, namespace, dns, ip)[0] == host + q;
    PrefixCancels(host, p, q);
  }

  /** The address is the same in all map orders if and only if it is emptied for want of a DNS name, or
      every service of a handled type offers at most one distinct port. */
  lemma HAAddressDetermined(nodes: seq<Node>, services: seq<Service>, namespace: string,
                            clusterDns: Option<string>)
    ensures HAAddressIsDetermined(nodes, services, namespace, clusterDns) <==>
            || (clusterDns.None? && NeedsDns(services))
            || forall i :: 0 <= i < |services| && Handled(services[i]) ==> SinglePort(AddressPorts(services[i]))
  {
    if clusterDns.Some? || !NeedsDns(services) {
      if i :| 0 <= i < |services| && Handled(services[i]) && !SinglePort(AddressPorts(services[i])) {
        var j, k :| j in AddressPorts(services[i]) && k in AddressPorts(services[i])
                    && AddressPorts(services[i])[j] != AddressPorts(services[i])[k];
        TwoPortsUndetermineAddress(nodes, services, namespace, clusterDns, i, j, k);
      } else {
        forall a, b | LegalPorts(services, a) && LegalPorts(services, b)
          ensures HAAddress(nodes, services, namespace, clusterDns, a)
                  == HAAddress(nodes, services, namespace, clusterDns, b)
        {
          SameAddresses(services, a, b, namespace, DnsOf(clusterDns), NodeIP(nodes));
        }
      }
    }
  }
}
