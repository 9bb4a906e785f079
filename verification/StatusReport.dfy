/** `convertByteToStatus`: reading a release's resource report line by line. */
module StatusReport {
  import opened Outcomes
  import opened Text
  import opened Decimal
  import Ports

  const DESIRED := "DESIRED"
  const CURRENT := "CURRENT"
  const AVAILABLE := "AVAILABLE"
  const PORTS := "PORT(S)"
  const TYPE := "TYPE"
  const EXTERNAL_IP := "EXTERNAL-IP"
  const INGRESS_HOSTS := "HOSTS"
  const INGRESS_PORTS := "PORTS"
  const NAME := "NAME"
  const CLUSTER_IP := "CLUSTER-IP"
  const AGE := "AGE"
  const ADDRESS := "ADDRESS"

  datatype Code =
    Unknown | Deployed | Deleted | Superseded | Failed | Deleting
    | PendingInstall | PendingUpgrade | PendingRollback

  datatype Service = Service(name: string, serviceType: string, nodePorts: map<int, int>,
                             clusterPorts: map<int, int>, externalIP: string)

  datatype Ingress = Ingress(name: string, hosts: seq<string>, port: Int)

  datatype Status = Status(name: string, namespace: string,
                           isFailed: bool, isDeployed: bool, isDeleted: bool, isDeleting: bool,
                           desiredNodes: Int, availableNodes: Int,
                           services: seq<Service>, ingresses: seq<Ingress>)

  /** The twelve column registers; -1 means unset. */
  datatype Registers = Registers(desired: int, current: int, available: int, port: int, kind: int,
                                 hosts: int, ingressPorts: int, externalIP: int, name: int,
                                 clusterIP: int, age: int, address: int)

  const RESET := Registers(-1, -1, -1, -1, -1, -1, -1, -1, -1, -1, -1, -1)

  /** What has been gathered from the report. */
  datatype Tally = Tally(desired: Int, available: Int, services: seq<Service>, ingresses: seq<Ingress>)

  const NOTHING := Tally(0, 0, [], [])

  datatype State = State(regs: Registers, tally: Tally)

  const INITIAL := State(RESET, NOTHING)

  function Add(a: Tally, b: Tally): Tally {
    Tally(Plus(a.desired, b.desired), Plus(a.available, b.available),
          a.services + b.services, a.ingresses + b.ingresses)
  }

  lemma AddAssociates(a: Tally, b: Tally, c: Tally)
    ensures Add(Add(a, b), c) == Add(a, Add(b, c))
  {
    var left, right := Add(Add(a, b), c), Add(a, Add(b, c));
    assert left.desired == right.desired by {
      PlusAssociates(a.desired, b.desired, c.desired);
    }
    assert left.available == right.available by {
      PlusAssociates(a.available, b.available, c.available);
    }
    assert left.services == right.services;
    assert left.ingresses == right.ingresses;
  }

  lemma AddNothing(t: Tally)
    ensures Add(NOTHING, t) == t && Add(t, NOTHING) == t
  {
  }

  // ---------- reading one line ----------

  /** Go's `strings.Fields(line[column:])[0]`. */
  function FirstField(line: string, column: nat): Outcome<string> {
    if column > |line| || Fields(line[column..]) == [] then Panic else Return(Fields(line[column..])[0])
  }

  /** Go's `strings.Fields(line[low:high])`. */
  function FieldsBetween(line: string, low: nat, high: nat): Outcome<seq<string>> {
    if low <= high <= |line| then Return(Fields(line[low..high])) else Panic
  }

  predicate IsWorkloadHeader(line: string) {
    Index(line, DESIRED) >= 0 && Index(line, CURRENT) >= 0
  }

  predicate IsIngressHeader(line: string) {
    && Index(line, INGRESS_HOSTS) >= 0 && Index(line, INGRESS_PORTS) >= 0 && Index(line, NAME) >= 0
    && Index(line, ADDRESS) >= 0 && Index(line, AGE) >= 0
  }

  predicate IsServiceHeader(line: string) {
    && Index(line, PORTS) >= 0 && Index(line, TYPE) >= 0 && Index(line, EXTERNAL_IP) >= 0
    && Index(line, NAME) >= 0 && Index(line, CLUSTER_IP) >= 0 && Index(line, AGE) >= 0
  }

  predicate InWorkloads(r: Registers) {
    r.desired >= 0 && r.current >= 0
  }

  predicate InIngresses(r: Registers) {
    r.hosts >= 0 && r.ingressPorts >= 0 && r.name >= 0 && r.address >= 0 && r.age >= 0
  }

  predicate InServices(r: Registers) {
    && r.port >= 0 && r.kind >= 0 && r.externalIP >= 0 && r.name >= 0 && r.clusterIP >= 0 && r.age >= 0
  }

  /** An unreadable number counts as `default`. */
  function NumberOr(text: string, default: Int): Int {
    if Atoi(text).Some? then Atoi(text).value else default
  }

  /** `n` is the integer that the text denotes, or `default` if it denotes none within 64 bits. */
  ghost predicate Counts(text: string, default: Int, n: Int) {
    Numeral(text, n) || (NoNumber(text) && n == default)
  }

  lemma NumberOrCounts(text: string, default: Int)
    ensures Counts(text, default, NumberOr(text, default))
  {
    NoNumberExactly(text);
    if Atoi(text).Some? {
      AtoiExactly(text, Atoi(text).value);
    }
  }

  /** Desired and available nodes of a workload row; without an AVAILABLE number, CURRENT counts. */
  function ReadWorkload(line: string, desired: nat, current: nat, available: int): Outcome<(Int, Int)> {
    var desiredText :- FirstField(line, desired);
    var currentText :- FirstField(line, current);
    var currentNodes := NumberOr(currentText, 0);
    if available >= 0 then
      var availableText :- FirstField(line, available);
      Return((NumberOr(desiredText, 0), NumberOr(availableText, currentNodes)))
    else
      Return((NumberOr(desiredText, 0), currentNodes))
  }

  /** The port is read at the ADDRESS column, as the code does on purpose. */
  function ReadIngress(line: string, hosts: nat, address: nat, name: nat): Outcome<Ingress> {
    var hostsText :- FirstField(line, hosts);
    var portsText :- FirstField(line, address);
    var nameText :- FirstField(line, name);
    Return(Ingress(nameText, Split(hostsText, ','), NumberOr(Split(portsText, ',')[0], 0)))
  }

  function MakeService(name: string, kind: string, externalIP: string, ports: string): Service {
    var maps := Ports.PortsOf(Split(ports, ','));
    Service(name, kind, maps.node, maps.cluster, externalIP)
  }

  /** One service per name; a missing type, address or port list is an index out of range. */
  function MakeServices(names: seq<string>, kinds: seq<string>, externalIPs: seq<string>,
                        ports: seq<string>): Outcome<seq<Service>>
  {
    if |names| <= |kinds| && |names| <= |externalIPs| && |names| <= |ports| then
      Return(seq(|names|, i requires 0 <= i < |names| =>
        MakeService(names[i], kinds[i], externalIPs[i], ports[i])))
    else
      Panic
  }

  function ReadServices(line: string, name: nat, kind: nat, clusterIP: nat, externalIP: nat, port: nat,
                        age: nat): Outcome<seq<Service>>
  {
    var names :- FieldsBetween(line, name, kind);
    var kinds :- FieldsBetween(line, kind, clusterIP);
    var externalIPs :- FieldsBetween(line, externalIP, port);
    var ports :- FieldsBetween(line, port, age);
    MakeServices(names, kinds, externalIPs, ports)
  }

  function WorkloadPart(r: Registers, line: string): Outcome<State> {
    if IsWorkloadHeader(line) then
      var r' := r.(desired := Index(line, DESIRED), current := Index(line, CURRENT));
      Return(State(if Index(line, AVAILABLE) >= 0 then r'.(available := Index(line, AVAILABLE)) else r',
                   NOTHING))
    else if InWorkloads(r) then
      var nodes :- ReadWorkload(line, r.desired, r.current, r.available);
      Return(State(r, Tally(nodes.0, nodes.1, [], [])))
    else
      Return(State(r, NOTHING))
  }

  function IngressPart(r: Registers, line: string): Outcome<State> {
    if IsIngressHeader(line) then
      Return(State(r.(hosts := Index(line, INGRESS_HOSTS), ingressPorts := Index(line, INGRESS_PORTS),
                      name := Index(line, NAME), address := Index(line, ADDRESS),
                      age := Index(line, AGE)), NOTHING))
    else if InIngresses(r) then
      var ingress :- ReadIngress(line, r.hosts, r.address, r.name);
      Return(State(r, Tally(0, 0, [], [ingress])))
    else
      Return(State(r, NOTHING))
  }

  function ServicePart(r: Registers, line: string): Outcome<State> {
    if IsServiceHeader(line) then
      Return(State(r.(port := Index(line, PORTS), kind := Index(line, TYPE),
                      externalIP := Index(line, EXTERNAL_IP), name := Index(line, NAME),
                      clusterIP := Index(line, CLUSTER_IP), age := Index(line, AGE)), NOTHING))
    else if InServices(r) then
      var services :- ReadServices(line, r.name, r.kind, r.clusterIP, r.externalIP, r.port, r.age);
      Return(State(r, Tally(0, 0, services, [])))
    else
      Return(State(r, NOTHING))
  }

  /** The effect of one line: new registers, and what the line contributes. */
  function ReadLine(r: Registers, line: string): Outcome<State> {
    var w :- WorkloadPart(if line == "" then RESET else r, line);
    var i :- IngressPart(w.regs, line);
    var s :- ServicePart(i.regs, line);
    Return(State(s.regs, Add(Add(w.tally, i.tally), s.tally)))
  }

  function Step(st: State, line: string): Outcome<State> {
    var next :- ReadLine(st.regs, line);
    Return(State(next.regs, Add(st.tally, next.tally)))
  }

  function Run(lines: seq<string>, st: State): Outcome<State> {
    if lines == [] then
      Return(st)
    else
      var next :- Step(st, lines[0]);
      Run(lines[1..], next)
  }

  /** Every register is unset or an offset. */
  predicate Offsets(r: Registers) {
    && r.desired >= -1 && r.current >= -1 && r.available >= -1 && r.port >= -1 && r.kind >= -1 && r.hosts >= -1
    && r.ingressPorts >= -1 && r.externalIP >= -1 && r.name >= -1 && r.clusterIP >= -1 && r.age >= -1
    && r.address >= -1
  }

  lemma {:induction false} RunKeepsOffsets(lines: seq<string>, st: State)
    requires Offsets(st.regs)
    ensures Run(lines, st).Return? ==> Offsets(Run(lines, st).value.regs)
  {
    if lines != [] && Step(st, lines[0]).Return? {
      LineKeepsOffsets(st.regs, lines[0]);
      RunKeepsOffsets(lines[1..], Step(st, lines[0]).value);
    }
  }

  lemma LineKeepsOffsets(r: Registers, line: string)
    requires Offsets(r)
    ensures ReadLine(r, line).Return? ==> Offsets(ReadLine(r, line).value.regs)
  {
    var w := WorkloadPart(if line == "" then RESET else r, line);
    PartsKeepOffsets(if line == "" then RESET else r, line);
    if w.Return? {
      PartsKeepOffsets(w.value.regs, line);
      if IngressPart(w.value.regs, line).Return? {
        PartsKeepOffsets(IngressPart(w.value.regs, line).value.regs, line);
      }
    }
  }

  lemma PartsKeepOffsets(r: Registers, line: string)
    requires Offsets(r)
    ensures WorkloadPart(r, line).Return? ==> Offsets(WorkloadPart(r, line).value.regs)
    ensures IngressPart(r, line).Return? ==> Offsets(IngressPart(r, line).value.regs)
    ensures ServicePart(r, line).Return? ==> Offsets(ServicePart(r, line).value.regs)
  {
  }

  /** After any lines, rows of a kind are read exactly if all columns of that kind have been found. */
  lemma RowsBelowHeaders(lines: seq<string>)
    requires Run(lines, INITIAL).Return?
    ensures var r := Run(lines, INITIAL).value.regs;
            && (InWorkloads(r) <==> r.desired != -1 && r.current != -1)
            && (InIngresses(r) <==> -1 !in {r.hosts, r.ingressPorts, r.name, r.address, r.age})
            && (InServices(r) <==> -1 !in {r.port, r.kind, r.externalIP, r.name, r.clusterIP, r.age})
  {
    RunKeepsOffsets(lines, INITIAL);
  }

  // ---------- reading section by section ----------

  /** The report cut at its blank lines. */
  function Sections(lines: seq<string>): (sections: seq<seq<string>>)
    ensures sections != []
  {
    if lines == [] then
      [[]]
    else
      var rest := Sections(lines[1..]);
      if lines[0] == "" then [[]] + rest else [[lines[0]] + rest[0]] + rest[1..]
  }

  /** A section read alone, from reset registers. */
  function ReadSection(section: seq<string>): Outcome<Tally> {
    var end :- Run(section, INITIAL);
    Return(end.tally)
  }

  function Combine(a: Outcome<Tally>, b: Outcome<Tally>): Outcome<Tally> {
    var x :- a;
    var y :- b;
    Return(Add(x, y))
  }

  function ReadSections(sections: seq<seq<string>>): Outcome<Tally> {
    if sections == [] then
      Return(NOTHING)
    else
      Combine(ReadSection(sections[0]), ReadSections(sections[1..]))
  }

  // ---------- streaming equals reading section by section ----------

  /** Earlier lines influence later ones only through the registers. */
  lemma {:induction false} RunFrame(lines: seq<string>, r: Registers, t: Tally)
    ensures Run(lines, State(r, t)) ==
            match Run(lines, State(r, NOTHING))
            case Panic => Panic
            case Return(end) => Return(State(end.regs, Add(t, end.tally)))
  {
    if lines == [] {
      AddNothing(t);
    } else if ReadLine(r, lines[0]).Return? {
      var next := ReadLine(r, lines[0]).value;
      AddNothing(next.tally);
      RunFrame(lines[1..], next.regs, Add(t, next.tally));
      RunFrame(lines[1..], next.regs, next.tally);
      var end := Run(lines[1..], State(next.regs, NOTHING));
      if end.Return? {
        AddAssociates(t, next.tally, end.value.tally);
      }
    }
  }

  lemma {:induction false} RunAcross(a: seq<string>, b: seq<string>, st: State)
    ensures Run(a + b, st) ==
            match Run(a, st)
            case Panic => Panic
            case Return(mid) => Run(b, mid)
  {
    if a == [] {
      assert a + b == b;
    } else {
      assert (a + b)[1..] == a[1..] + b;
      if Step(st, a[0]).Return? {
        RunAcross(a[1..], b, Step(st, a[0]).value);
      }
    }
  }

  /** A blank line contributes nothing and resets every register. */
  lemma BlankResets(st: State)
    ensures Step(st, "") == Return(State(RESET, st.tally))
  {
    AddNothing(st.tally);
    AddNothing(NOTHING);
  }

  /** Reading two texts separated by a blank line is reading each alone and combining. */
  lemma ParseAcrossBlank(a: seq<string>, b: seq<string>)
    ensures ReadSection(a + [""] + b) == Combine(ReadSection(a), ReadSection(b))
  {
    assert a + [""] + b == a + ([""] + b);
    RunAcross(a, [""] + b, INITIAL);
    if Run(a, INITIAL).Return? {
      var mid := Run(a, INITIAL).value;
      BlankResets(mid);
      assert ([""] + b)[1..] == b;
      RunFrame(b, RESET, mid.tally);
    }
  }

  lemma {:induction false} SectionsPrefix(section: seq<string>, rest: seq<string>)
    requires "" !in section
    ensures Sections(section + [""] + rest) == [section] + Sections(rest)
  {
    if section == [] {
      assert section + [""] + rest == [""] + rest;
    } else {
      assert (section + [""] + rest)[1..] == section[1..] + [""] + rest;
      SectionsPrefix(section[1..], rest);
      assert [section[0]] + section[1..] == section;
    }
  }

  lemma {:induction false} SectionsWithoutBlank(section: seq<string>)
    requires "" !in section
    ensures Sections(section) == [section]
  {
    if section != [] {
      SectionsWithoutBlank(section[1..]);
      assert [section[0]] + section[1..] == section;
    }
  }

  /** The position of the first blank line, or the length. */
  function FirstBlank(lines: seq<string>): (n: nat)
    ensures n <= |lines| && "" !in lines[..n]
    ensures n < |lines| ==> lines[n] == ""
  {
    if lines == [] || lines[0] == "" then
      0
    else
      var n := 1 + FirstBlank(lines[1..]);
      assert lines[..n] == [lines[0]] + lines[1..][..n - 1];
      n
  }

  /** The streaming reader refines the section-by-section one, on every report. */
  lemma {:induction false} StreamingIsSectionwise(lines: seq<string>)
    ensures ReadSection(lines) == ReadSections(Sections(lines))
    decreases |lines|
  {
    var n := FirstBlank(lines);
    if n == |lines| {
      assert lines[..n] == lines;
      SectionsWithoutBlank(lines);
      assert [lines][1..] == [];
      if ReadSection(lines).Return? {
        AddNothing(ReadSection(lines).value);
      }
    } else {
      var section, rest := lines[..n], lines[n + 1..];
      assert lines == section + [""] + rest;
      SectionsPrefix(section, rest);
      ParseAcrossBlank(section, rest);
      StreamingIsSectionwise(rest);
      assert ([section] + Sections(rest))[1..] == Sections(rest);
    }
  }

  // ---------- the reader itself ----------

  /** Past the timeout with nodes missing, or an unusual status code, the release counts as failed. */
  function Finish(release: string, namespace: string, tally: Tally, lastDeployment: int, timeout: int,
                  now: int, code: Code): Status
  {
    var late := now > lastDeployment + timeout && tally.available < tally.desired;
    Status(release, namespace,
           late || code !in {Deployed, Deleted, Deleting}, code == Deployed, code == Deleted, code == Deleting,
           tally.desired, tally.available, tally.services, tally.ingresses)
  }

  /** The status holds what was read, field by field. */
  predicate Records(status: Status, release: string, namespace: string, tally: Tally) {
    && status.name == release && status.namespace == namespace
    && status.services == tally.services && status.ingresses == tally.ingresses
    && status.desiredNodes == tally.desired && status.availableNodes == tally.available
  }

  /** The flags, spelled out by code. */
  predicate Flagged(status: Status, late: bool, code: Code) {
    && (status.isDeployed <==> code.Deployed?)
    && (status.isDeleted <==> code.Deleted?)
    && (status.isDeleting <==> code.Deleting?)
    && (status.isFailed <==>
        || code.Unknown? || code.Superseded? || code.Failed?
        || code.PendingInstall? || code.PendingUpgrade? || code.PendingRollback?
        || (late && status.availableNodes < status.desiredNodes))
  }

  /** The loop over a row's names. */
  method CollectServices(names: seq<string>, kinds: seq<string>, externalIPs: seq<string>, ports: seq<string>)
      returns (r: Outcome<seq<Service>>)
    ensures r == MakeServices(names, kinds, externalIPs, ports)
  {
    var services := [];
    for i := 0 to |names|
      invariant i <= |kinds| && i <= |externalIPs| && i <= |ports|
      invariant |services| == i
      invariant forall k :: 0 <= k < i ==>
                  services[k] == MakeService(names[k], kinds[k], externalIPs[k], ports[k])
    {
      if i >= |ports| || i >= |kinds| || i >= |externalIPs| {
        return Panic;
      }
      var clusterPorts, nodePorts := Ports.ParsePortList(ports[i]);
      services := services + [Service(names[i], kinds[i], nodePorts, clusterPorts, externalIPs[i])];
    }
    assert services == MakeServices(names, kinds, externalIPs, ports).value;
    r := Return(services);
  }

  method ReadServiceRow(line: string, name: nat, kind: nat, clusterIP: nat, externalIP: nat, port: nat,
                        age: nat) returns (r: Outcome<seq<Service>>)
    ensures r == ReadServices(line, name, kind, clusterIP, externalIP, port, age)
  {
    var names :- FieldsBetween(line, name, kind);
    var kinds :- FieldsBetween(line, kind, clusterIP);
    var externalIPs :- FieldsBetween(line, externalIP, port);
    var ports :- FieldsBetween(line, port, age);
    r := CollectServices(names, kinds, externalIPs, ports);
  }

  /** The workload part of the loop body: a header sets its columns, a row is counted. */
  method ScanWorkload(line: string, columns: Registers, tally: Tally) returns (r: Outcome<State>)
    ensures r == match WorkloadPart(columns, line)
                 case Panic => Panic
                 case Return(part) => Return(State(part.regs, Add(tally, part.tally)))
  {
    var regs, counts := columns, tally;
    AddNothing(tally);
    var indexDesired, indexCurrent := Index(line, DESIRED), Index(line, CURRENT);
    var indexAvailable := Index(line, AVAILABLE);
    if indexDesired >= 0 && indexCurrent >= 0 {
      regs := regs.(desired := indexDesired, current := indexCurrent);
      if indexAvailable >= 0 {
        regs := regs.(available := indexAvailable);
      }
    } else if regs.desired >= 0 && regs.current >= 0 {
      var nodes :- ReadWorkload(line, regs.desired, regs.current, regs.available);
      counts := counts.(desired := Plus(counts.desired, nodes.0),
                        available := Plus(counts.available, nodes.1));
    }
    r := Return(State(regs, counts));
  }

  method ScanIngress(line: string, columns: Registers, tally: Tally) returns (r: Outcome<State>)
    ensures r == match IngressPart(columns, line)
                 case Panic => Panic
                 case Return(part) => Return(State(part.regs, Add(tally, part.tally)))
  {
    var regs, counts := columns, tally;
    AddNothing(tally);
    var indexHosts, indexPorts := Index(line, INGRESS_HOSTS), Index(line, INGRESS_PORTS);
    var indexName, indexAddress, indexAge := Index(line, NAME), Index(line, ADDRESS), Index(line, AGE);
    if indexHosts >= 0 && indexPorts >= 0 && indexName >= 0 && indexAddress >= 0 && indexAge >= 0 {
      regs := regs.(hosts := indexHosts, ingressPorts := indexPorts, name := indexName,
                    address := indexAddress, age := indexAge);
    } else if regs.hosts >= 0 && regs.ingressPorts >= 0 && regs.name >= 0 && regs.address >= 0
              && regs.age >= 0 {
      var ingress :- ReadIngress(line, regs.hosts, regs.address, regs.name);
      counts := counts.(ingresses := counts.ingresses + [ingress]);
    }
    r := Return(State(regs, counts));
  }

  method ScanService(line: string, columns: Registers, tally: Tally) returns (r: Outcome<State>)
    ensures r == match ServicePart(columns, line)
                 case Panic => Panic
                 case Return(part) => Return(State(part.regs, Add(tally, part.tally)))
  {
    var regs, counts := columns, tally;
    AddNothing(tally);
    var indexPort, indexType := Index(line, PORTS), Index(line, TYPE);
    var indexExternalIP, indexName := Index(line, EXTERNAL_IP), Index(line, NAME);
    var indexClusterIP, indexAge := Index(line, CLUSTER_IP), Index(line, AGE);
    if indexPort >= 0 && indexType >= 0 && indexExternalIP >= 0 && indexName >= 0 && indexClusterIP >= 0
       && indexAge >= 0 {
      regs := regs.(port := indexPort, kind := indexType, externalIP := indexExternalIP,
                    name := indexName, clusterIP := indexClusterIP, age := indexAge);
    } else if regs.port >= 0 && regs.kind >= 0 && regs.externalIP >= 0 && regs.name >= 0
              && regs.clusterIP >= 0 && regs.age >= 0 {
      var services :- ReadServiceRow(line, regs.name, regs.kind, regs.clusterIP, regs.externalIP,
                                     regs.port, regs.age);
      counts := counts.(services := counts.services + services);
    }
    r := Return(State(regs, counts));
  }

  lemma PartsAddUp(line: string, columns: Registers, tally: Tally)
    ensures Step(State(columns, tally), line) ==
            var w := WorkloadPart(if line == "" then RESET else columns, line);
            if w.Panic? then Panic else
            var i := IngressPart(w.value.regs, line);
            if i.Panic? then Panic else
            var s := ServicePart(i.value.regs, line);
            if s.Panic? then Panic else
            Return(State(s.value.regs, Add(Add(Add(tally, w.value.tally), i.value.tally), s.value.tally)))
  {
    var w := WorkloadPart(if line == "" then RESET else columns, line);
    if w.Return? {
      var i := IngressPart(w.value.regs, line);
      if i.Return? {
        var s := ServicePart(i.value.regs, line);
        if s.Return? {
          AddAssociates(tally, w.value.tally, i.value.tally);
          AddAssociates(tally, Add(w.value.tally, i.value.tally), s.value.tally);
        }
      }
    }
  }

  /** The body of the loop. */
  method ScanLine(line: string, columns: Registers, tally: Tally) returns (r: Outcome<State>)
    ensures r == Step(State(columns, tally), line)
  {
    var w :- ScanWorkload(line, if |line| == 0 then RESET else columns, tally);
    var i :- ScanIngress(line, w.regs, w.tally);
    r := ScanService(line, i.regs, i.tally);
    PartsAddUp(line, columns, tally);
  }

  /** The streaming reader. It equals reading the report section by section, each from reset
      registers. */
  method ConvertByteToStatus(release: string, namespace: string, lastDeployment: int, timeout: int,
                             now: int, code: Code, rawData: string) returns (r: Outcome<Status>)
    ensures r == match ReadSections(Sections(ScanLines(rawData)))
                 case Panic => Panic
                 case Return(tally) =>
                   Return(Finish(release, namespace, tally, lastDeployment, timeout, now, code))
    ensures r.Return? ==> Records(r.value, release, namespace, ReadSections(Sections(ScanLines(rawData))).value)
    ensures r.Return? ==> Flagged(r.value, now > lastDeployment + timeout, code)
  {
    var lines := ScanLines(rawData);
    StreamingIsSectionwise(lines);
    var columns, tally := RESET, NOTHING;
    for n := 0 to |lines|
      invariant Run(lines[n..], State(columns, tally)) == Run(lines, INITIAL)
    {
      var after :- ScanLine(lines[n], columns, tally);
      columns, tally := after.regs, after.tally;
    }
    r := Return(Finish(release, namespace, tally, lastDeployment, timeout, now, code));
  }
}
