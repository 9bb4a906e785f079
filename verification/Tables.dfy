/** Reading an aligned table gives back its cells: the printer, `formatResources` and the reader
    together. */
module Tables {
  import opened Outcomes
  import opened Text
  import opened Decimal
  import opened Elastic
  import opened Columns
  import opened StatusReport

  // ---------- header lines, cell by cell ----------

  predicate Has(row: seq<string>, name: string) {
    ColumnOf(row, name) >= 0
  }

  predicate WorkloadCells(row: seq<string>) {
    Has(row, DESIRED) && Has(row, CURRENT)
  }

  predicate IngressCells(row: seq<string>) {
    Has(row, INGRESS_HOSTS) && Has(row, INGRESS_PORTS) && Has(row, NAME) && Has(row, ADDRESS) && Has(row, AGE)
  }

  predicate ServiceCells(row: seq<string>) {
    && Has(row, PORTS) && Has(row, TYPE) && Has(row, EXTERNAL_IP) && Has(row, NAME)
    && Has(row, CLUSTER_IP) && Has(row, AGE)
  }

  /** Not a header line of any of the three kinds. */
  predicate Plain(row: seq<string>) {
    !WorkloadCells(row) && !IngressCells(row) && !ServiceCells(row)
  }

  /** The label heads its own cell, and no earlier cell contains it. */
  predicate Heads(header: seq<string>, name: string) {
    Labels(header, ColumnOf(header, name), name)
  }

  /** strings.Index finds a heading label exactly where its column starts. */
  lemma LabelAtOffset(header: Row, widths: seq<nat>, name: string)
    requires Fit(header, widths) && Filled(header)
    requires name != "" && ' ' !in name && Heads(header, name)
    ensures Index(Render(header, widths), name) == Offset(widths, ColumnOf(header, name))
  {
    IndexInLine(header, widths, true, name);
    IndexOfPrefix(header[ColumnOf(header, name)], name);
  }

  lemma PresenceInLine(row: Row, widths: seq<nat>, name: string)
    requires Fit(row, widths) && Filled(row)
    requires name != "" && ' ' !in name
    ensures Index(Render(row, widths), name) >= 0 <==> Has(row, name)
  {
    IndexInLine(row, widths, true, name);
  }

  lemma WorkloadHeaderByCells(row: Row, widths: seq<nat>)
    requires Fit(row, widths) && Filled(row)
    ensures IsWorkloadHeader(Render(row, widths)) <==> WorkloadCells(row)
  {
    PresenceInLine(row, widths, DESIRED);
    PresenceInLine(row, widths, CURRENT);
  }

  lemma IngressHeaderByCells(row: Row, widths: seq<nat>)
    requires Fit(row, widths) && Filled(row)
    ensures IsIngressHeader(Render(row, widths)) <==> IngressCells(row)
  {
    PresenceInLine(row, widths, INGRESS_HOSTS);
    PresenceInLine(row, widths, INGRESS_PORTS);
    PresenceInLine(row, widths, NAME);
    PresenceInLine(row, widths, ADDRESS);
    PresenceInLine(row, widths, AGE);
  }

  lemma ServiceHeaderByCells(row: Row, widths: seq<nat>)
    requires Fit(row, widths) && Filled(row)
    ensures IsServiceHeader(Render(row, widths)) <==> ServiceCells(row)
  {
    PresenceInLine(row, widths, PORTS);
    PresenceInLine(row, widths, TYPE);
    PresenceInLine(row, widths, EXTERNAL_IP);
    PresenceInLine(row, widths, NAME);
    PresenceInLine(row, widths, CLUSTER_IP);
    PresenceInLine(row, widths, AGE);
  }

  // ---------- what a table says ----------

  predicate TidyRow(row: seq<string>) {
    row != [] && forall k :: 0 <= k < |row| ==> Tidy(row[k])
  }

  predicate Word(cell: string) {
    cell != "" && forall c :: c in cell ==> c !in SPACES
  }

  /** The first word of a tidy cell: the cell itself unless it has inner spaces. */
  function FirstWord(cell: string): (w: string)
    requires Tidy(cell)
  {
    TidyHasWord(cell);
    Fields(cell)[0]
  }

  lemma TidyHasWord(cell: string)
    requires Tidy(cell)
    ensures Fields(cell) != []
  {
  }

  lemma FirstWordOfWord(cell: string)
    requires Word(cell)
    ensures Tidy(cell) && FirstWord(cell) == cell && Fields(cell) == [cell]
  {
    FieldsOfWord(cell, SPACES);
  }

  /** A cell "word rest" with a single inner space is read as "word". */
  lemma FirstWordOfTwo(first: string, rest: string)
    requires Word(first) && Tidy(first + " " + rest)
    ensures FirstWord(first + " " + rest) == first
  {
    FieldsAcross(first, ' ', rest, SPACES);
    FirstWordOfWord(first);
  }

  predicate WorkloadHeader(header: seq<string>) {
    && TidyRow(header) && !IngressCells(header) && !ServiceCells(header)
    && Heads(header, DESIRED) && Heads(header, CURRENT)
    && (Has(header, AVAILABLE) ==> Heads(header, AVAILABLE))
  }

  predicate WorkloadColumns(header: seq<string>) {
    ColumnOf(header, DESIRED) >= 0 && ColumnOf(header, CURRENT) >= 0
  }

  /** The last column that is read from a workload row. */
  function WorkloadReach(header: seq<string>): int {
    var d, c, a := ColumnOf(header, DESIRED), ColumnOf(header, CURRENT), ColumnOf(header, AVAILABLE);
    if d >= c && d >= a then d else if c >= a then c else a
  }

  /** DESIRED, and AVAILABLE or else CURRENT; unreadable numbers count as described. */
  function WorkloadRow(header: seq<string>, row: seq<string>): Tally
    requires WorkloadColumns(header) && TidyRow(row) && |row| > WorkloadReach(header)
  {
    var current := NumberOr(FirstWord(row[ColumnOf(header, CURRENT)]), 0);
    Tally(NumberOr(FirstWord(row[ColumnOf(header, DESIRED)]), 0),
          if Has(header, AVAILABLE)
          then NumberOr(FirstWord(row[ColumnOf(header, AVAILABLE)]), current) else current,
          [], [])
  }

  /** DESIRED or else 0 nodes are desired; AVAILABLE or else CURRENT or else 0 are available. */
  lemma WorkloadCounts(header: seq<string>, row: seq<string>) returns (current: Int)
    requires WorkloadColumns(header) && TidyRow(row) && |row| > WorkloadReach(header)
    ensures Counts(FirstWord(row[ColumnOf(header, DESIRED)]), 0, WorkloadRow(header, row).desired)
    ensures Counts(FirstWord(row[ColumnOf(header, CURRENT)]), 0, current)
    ensures var available := WorkloadRow(header, row).available;
            if Has(header, AVAILABLE) then Counts(FirstWord(row[ColumnOf(header, AVAILABLE)]), current, available)
            else available == current
  {
    current := NumberOr(FirstWord(row[ColumnOf(header, CURRENT)]), 0);
    NumberOrCounts(FirstWord(row[ColumnOf(header, DESIRED)]), 0);
    NumberOrCounts(FirstWord(row[ColumnOf(header, CURRENT)]), 0);
    if Has(header, AVAILABLE) {
      NumberOrCounts(FirstWord(row[ColumnOf(header, AVAILABLE)]), current);
    }
  }

  predicate IngressHeader(header: seq<string>) {
    && TidyRow(header) && !WorkloadCells(header) && !ServiceCells(header)
    && Heads(header, INGRESS_HOSTS) && Heads(header, INGRESS_PORTS) && Heads(header, NAME)
    && Heads(header, ADDRESS) && Heads(header, AGE)
  }

  predicate IngressColumns(header: seq<string>) {
    && ColumnOf(header, INGRESS_HOSTS) >= 0 && ColumnOf(header, INGRESS_PORTS) >= 0
    && ColumnOf(header, NAME) >= 0 && ColumnOf(header, ADDRESS) >= 0 && ColumnOf(header, AGE) >= 0
  }

  function IngressReach(header: seq<string>): int {
    var h, n, a := ColumnOf(header, INGRESS_HOSTS), ColumnOf(header, NAME), ColumnOf(header, ADDRESS);
    if h >= n && h >= a then h else if n >= a then n else a
  }

  /** The host list, and the port found under ADDRESS. */
  function IngressRow(header: seq<string>, row: seq<string>): Tally
    requires IngressColumns(header) && TidyRow(row) && |row| > IngressReach(header)
  {
    Tally(0, 0, [],
          [Ingress(FirstWord(row[ColumnOf(header, NAME)]),
                   Split(FirstWord(row[ColumnOf(header, INGRESS_HOSTS)]), ','),
                   NumberOr(Split(FirstWord(row[ColumnOf(header, ADDRESS)]), ',')[0], 0))])
  }

  /** The port is the number before the first comma under ADDRESS, or else 0. */
  lemma IngressPortCounts(header: seq<string>, row: seq<string>)
    requires IngressColumns(header) && TidyRow(row) && |row| > IngressReach(header)
    ensures var tally := IngressRow(header, row);
            && |tally.ingresses| == 1
            && Counts(Split(FirstWord(row[ColumnOf(header, ADDRESS)]), ',')[0], 0, tally.ingresses[0].port)
  {
    NumberOrCounts(Split(FirstWord(row[ColumnOf(header, ADDRESS)]), ',')[0], 0);
  }

  /** NAME, TYPE and CLUSTER-IP are neighbours, and so are EXTERNAL-IP, PORT(S) and AGE. */
  predicate ServiceColumns(header: seq<string>) {
    && ColumnOf(header, NAME) >= 0 && ColumnOf(header, EXTERNAL_IP) >= 0
    && ColumnOf(header, TYPE) == ColumnOf(header, NAME) + 1
    && ColumnOf(header, CLUSTER_IP) == ColumnOf(header, NAME) + 2
    && ColumnOf(header, PORTS) == ColumnOf(header, EXTERNAL_IP) + 1
    && ColumnOf(header, AGE) == ColumnOf(header, EXTERNAL_IP) + 2
  }

  predicate ServiceHeader(header: seq<string>) {
    && TidyRow(header) && !WorkloadCells(header) && !IngressCells(header)
    && Heads(header, PORTS) && Heads(header, TYPE) && Heads(header, EXTERNAL_IP)
    && Heads(header, NAME) && Heads(header, CLUSTER_IP) && Heads(header, AGE)
    && ServiceColumns(header)
  }

  function ServiceReach(header: seq<string>): int {
    var c, a := ColumnOf(header, CLUSTER_IP), ColumnOf(header, AGE);
    if c >= a then c else a
  }

  predicate ServiceWords(header: seq<string>, row: seq<string>)
    requires ServiceColumns(header) && |row| > ServiceReach(header)
  {
    && Word(row[ColumnOf(header, NAME)]) && Word(row[ColumnOf(header, TYPE)])
    && Word(row[ColumnOf(header, EXTERNAL_IP)]) && Word(row[ColumnOf(header, PORTS)])
  }

  function ServiceRow(header: seq<string>, row: seq<string>): Tally
    requires ServiceColumns(header) && |row| > ServiceReach(header)
  {
    Tally(0, 0,
          [MakeService(row[ColumnOf(header, NAME)], row[ColumnOf(header, TYPE)],
                       row[ColumnOf(header, EXTERNAL_IP)], row[ColumnOf(header, PORTS)])], [])
  }

  // ---------- cells read back from an aligned grid ----------

  /** Below a header on line `h`, the first field at a column's header offset is the row's cell. */
  lemma CellReadBack(g: Grid, h: nat, i: nat, j: nat)
    requires h <= i && Reach(g, h, i + 1, j) && TidyRow(g[i])
    ensures FirstField(Align(g)[i], Offset(Widths(g, h), j)) == Return(FirstWord(g[i][j]))
  {
    ColumnsAligned(g, h, i, j);
    WordsFromColumn(g[i], Widths(g, i), j);
    TidyHasWord(g[i][j]);
  }

  /** The text between two neighbouring header offsets holds the words of the row's cell. */
  lemma CellBetweenOffsets(g: Grid, h: nat, i: nat, j: nat)
    requires h <= i && Reach(g, h, i + 1, j + 1) && TidyRow(g[i]) && Word(g[i][j])
    ensures FieldsBetween(Align(g)[i], Offset(Widths(g, h), j), Offset(Widths(g, h), j + 1))
            == Return([g[i][j]])
  {
    ColumnsAligned(g, h, i, j);
    ColumnsAligned(g, h, i, j + 1);
    TextOfColumn(g[i], Widths(g, i), j);
    FieldsPadded(g[i][j], Widths(g, i)[j] - |g[i][j]|);
    FirstWordOfWord(g[i][j]);
  }

  // ---------- registers set by a header ----------

  function WorkloadRegisters(header: Row, widths: seq<nat>): Registers
    requires Fit(header, widths) && WorkloadColumns(header)
  {
    RESET.(desired := Offset(widths, ColumnOf(header, DESIRED)),
           current := Offset(widths, ColumnOf(header, CURRENT)),
           available := if Has(header, AVAILABLE) then Offset(widths, ColumnOf(header, AVAILABLE)) else -1)
  }

  function IngressRegisters(header: Row, widths: seq<nat>): Registers
    requires Fit(header, widths) && IngressColumns(header)
  {
    RESET.(hosts := Offset(widths, ColumnOf(header, INGRESS_HOSTS)),
           ingressPorts := Offset(widths, ColumnOf(header, INGRESS_PORTS)),
           name := Offset(widths, ColumnOf(header, NAME)),
           address := Offset(widths, ColumnOf(header, ADDRESS)),
           age := Offset(widths, ColumnOf(header, AGE)))
  }

  function ServiceRegisters(header: Row, widths: seq<nat>): Registers
    requires Fit(header, widths) && ServiceColumns(header)
  {
    RESET.(port := Offset(widths, ColumnOf(header, PORTS)),
           kind := Offset(widths, ColumnOf(header, TYPE)),
           externalIP := Offset(widths, ColumnOf(header, EXTERNAL_IP)),
           name := Offset(widths, ColumnOf(header, NAME)),
           clusterIP := Offset(widths, ColumnOf(header, CLUSTER_IP)),
           age := Offset(widths, ColumnOf(header, AGE)))
  }

  // ---------- lines of a single kind ----------

  /** A line that is not blank and no header. */
  predicate RowLine(line: string) {
    line != "" && !IsWorkloadHeader(line) && !IsIngressHeader(line) && !IsServiceHeader(line)
  }

  lemma WorkloadHeaderLine(line: string)
    requires line != "" && IsWorkloadHeader(line) && !IsIngressHeader(line) && !IsServiceHeader(line)
    ensures ReadLine(RESET, line) ==
            Return(State(RESET.(desired := Index(line, DESIRED), current := Index(line, CURRENT),
                                available := Index(line, AVAILABLE)), NOTHING))
  {
    AddNothing(NOTHING);
  }

  lemma IngressHeaderLine(line: string)
    requires line != "" && !IsWorkloadHeader(line) && IsIngressHeader(line) && !IsServiceHeader(line)
    ensures ReadLine(RESET, line) ==
            Return(State(RESET.(hosts := Index(line, INGRESS_HOSTS),
                                ingressPorts := Index(line, INGRESS_PORTS), name := Index(line, NAME),
                                address := Index(line, ADDRESS), age := Index(line, AGE)), NOTHING))
  {
    AddNothing(NOTHING);
  }

  lemma ServiceHeaderLine(line: string)
    requires line != "" && !IsWorkloadHeader(line) && !IsIngressHeader(line) && IsServiceHeader(line)
    ensures ReadLine(RESET, line) ==
            Return(State(RESET.(port := Index(line, PORTS), kind := Index(line, TYPE),
                                externalIP := Index(line, EXTERNAL_IP), name := Index(line, NAME),
                                clusterIP := Index(line, CLUSTER_IP), age := Index(line, AGE)), NOTHING))
  {
    AddNothing(NOTHING);
  }

  lemma PlainLine(line: string)
    requires RowLine(line)
    ensures ReadLine(RESET, line) == Return(State(RESET, NOTHING))
  {
    AddNothing(NOTHING);
  }

  lemma WorkloadLine(r: Registers, line: string, nodes: (Int, Int))
    requires RowLine(line) && InWorkloads(r) && !InIngresses(r) && !InServices(r)
    requires ReadWorkload(line, r.desired, r.current, r.available) == Return(nodes)
    ensures ReadLine(r, line) == Return(State(r, Tally(nodes.0, nodes.1, [], [])))
  {
    AddNothing(Tally(nodes.0, nodes.1, [], []));
  }

  lemma IngressLine(r: Registers, line: string, ingress: Ingress)
    requires RowLine(line) && !InWorkloads(r) && InIngresses(r) && !InServices(r)
    requires ReadIngress(line, r.hosts, r.address, r.name) == Return(ingress)
    ensures ReadLine(r, line) == Return(State(r, Tally(0, 0, [], [ingress])))
  {
    AddNothing(Tally(0, 0, [], [ingress]));
  }

  lemma ServiceLine(r: Registers, line: string, services: seq<Service>)
    requires RowLine(line) && !InWorkloads(r) && !InIngresses(r) && InServices(r)
    requires ReadServices(line, r.name, r.kind, r.clusterIP, r.externalIP, r.port, r.age) == Return(services)
    ensures ReadLine(r, line) == Return(State(r, Tally(0, 0, services, [])))
  {
    AddNothing(Tally(0, 0, services, []));
  }

  lemma HeaderKinds(row: Row, widths: seq<nat>)
    requires Fit(row, widths) && Filled(row)
    ensures Render(row, widths) != ""
    ensures IsWorkloadHeader(Render(row, widths)) <==> WorkloadCells(row)
    ensures IsIngressHeader(Render(row, widths)) <==> IngressCells(row)
    ensures IsServiceHeader(Render(row, widths)) <==> ServiceCells(row)
  {
    RenderLength(row, widths, true);
    WorkloadHeaderByCells(row, widths);
    IngressHeaderByCells(row, widths);
    ServiceHeaderByCells(row, widths);
  }

  lemma WorkloadHeaderSets(header: Row, widths: seq<nat>)
    requires Fit(header, widths) && WorkloadHeader(header)
    ensures ReadLine(RESET, Render(header, widths))
            == Return(State(WorkloadRegisters(header, widths), NOTHING))
  {
    HeaderKinds(header, widths);
    LabelAtOffset(header, widths, DESIRED);
    LabelAtOffset(header, widths, CURRENT);
    if Has(header, AVAILABLE) {
      LabelAtOffset(header, widths, AVAILABLE);
    } else {
      PresenceInLine(header, widths, AVAILABLE);
    }
    WorkloadHeaderLine(Render(header, widths));
  }

  lemma IngressHeaderSets(header: Row, widths: seq<nat>)
    requires Fit(header, widths) && IngressHeader(header)
    ensures ReadLine(RESET, Render(header, widths))
            == Return(State(IngressRegisters(header, widths), NOTHING))
  {
    HeaderKinds(header, widths);
    LabelAtOffset(header, widths, INGRESS_HOSTS);
    LabelAtOffset(header, widths, INGRESS_PORTS);
    LabelAtOffset(header, widths, NAME);
    LabelAtOffset(header, widths, ADDRESS);
    LabelAtOffset(header, widths, AGE);
    IngressHeaderLine(Render(header, widths));
  }

  lemma ServiceHeaderSets(header: Row, widths: seq<nat>)
    requires Fit(header, widths) && ServiceHeader(header)
    ensures ReadLine(RESET, Render(header, widths))
            == Return(State(ServiceRegisters(header, widths), NOTHING))
  {
    HeaderKinds(header, widths);
    LabelAtOffset(header, widths, PORTS);
    LabelAtOffset(header, widths, TYPE);
    LabelAtOffset(header, widths, EXTERNAL_IP);
    LabelAtOffset(header, widths, NAME);
    LabelAtOffset(header, widths, CLUSTER_IP);
    LabelAtOffset(header, widths, AGE);
    ServiceHeaderLine(Render(header, widths));
  }

  // ---------- rows below a header ----------

  lemma WorkloadRowRead(g: Grid, h: nat, i: nat)
    requires h < i < |g| && WorkloadColumns(g[h])
    requires Reach(g, h, i + 1, WorkloadReach(g[h])) && TidyRow(g[i]) && RowLine(Align(g)[i])
    ensures var r := WorkloadRegisters(g[h], Widths(g, h));
            ReadLine(r, Align(g)[i]) == Return(State(r, WorkloadRow(g[h], g[i])))
  {
    var r, line, t := WorkloadRegisters(g[h], Widths(g, h)), Align(g)[i], WorkloadRow(g[h], g[i]);
    assert ReadWorkload(line, r.desired, r.current, r.available) == Return((t.desired, t.available)) by {
      CellReadBack(g, h, i, ColumnOf(g[h], DESIRED));
      CellReadBack(g, h, i, ColumnOf(g[h], CURRENT));
      if Has(g[h], AVAILABLE) {
        CellReadBack(g, h, i, ColumnOf(g[h], AVAILABLE));
      }
    }
    WorkloadLine(r, line, (t.desired, t.available));
  }

  lemma IngressRowRead(g: Grid, h: nat, i: nat)
    requires h < i < |g| && IngressColumns(g[h])
    requires Reach(g, h, i + 1, IngressReach(g[h])) && TidyRow(g[i]) && RowLine(Align(g)[i])
    ensures var r := IngressRegisters(g[h], Widths(g, h));
            ReadLine(r, Align(g)[i]) == Return(State(r, IngressRow(g[h], g[i])))
  {
    var r, line, t := IngressRegisters(g[h], Widths(g, h)), Align(g)[i], IngressRow(g[h], g[i]);
    assert ReadIngress(line, r.hosts, r.address, r.name) == Return(t.ingresses[0]) by {
      CellReadBack(g, h, i, ColumnOf(g[h], INGRESS_HOSTS));
      CellReadBack(g, h, i, ColumnOf(g[h], ADDRESS));
      CellReadBack(g, h, i, ColumnOf(g[h], NAME));
    }
    IngressLine(r, line, t.ingresses[0]);
  }

  lemma OneService(line: string, r: Registers, name: string, kind: string, externalIP: string,
                   ports: string)
    requires InServices(r)
    requires FieldsBetween(line, r.name, r.kind) == Return([name])
    requires FieldsBetween(line, r.kind, r.clusterIP) == Return([kind])
    requires FieldsBetween(line, r.externalIP, r.port) == Return([externalIP])
    requires FieldsBetween(line, r.port, r.age) == Return([ports])
    ensures ReadServices(line, r.name, r.kind, r.clusterIP, r.externalIP, r.port, r.age)
            == Return([MakeService(name, kind, externalIP, ports)])
  {
    assert MakeServices([name], [kind], [externalIP], [ports]).value
           == [MakeService(name, kind, externalIP, ports)];
  }

  lemma ServiceRowRead(g: Grid, h: nat, i: nat)
    requires h < i < |g| && ServiceColumns(g[h])
    requires Reach(g, h, i + 1, ServiceReach(g[h])) && TidyRow(g[i]) && RowLine(Align(g)[i])
    requires ServiceWords(g[h], g[i])
    ensures var r := ServiceRegisters(g[h], Widths(g, h));
            ReadLine(r, Align(g)[i]) == Return(State(r, ServiceRow(g[h], g[i])))
  {
    ServiceRowAt(g, h, i, ServiceRegisters(g[h], Widths(g, h)), ColumnOf(g[h], NAME),
                 ColumnOf(g[h], EXTERNAL_IP));
  }

  /** A service row below registers that point at columns `n`, `n + 1`, `n + 2` and `e`, `e + 1`,
      `e + 2`. */
  lemma ServiceRowAt(g: Grid, h: nat, i: nat, r: Registers, n: nat, e: nat)
    requires h < i && Reach(g, h, i + 1, n + 2) && Reach(g, h, i + 1, e + 2)
    requires TidyRow(g[i]) && RowLine(Align(g)[i])
    requires !InWorkloads(r) && !InIngresses(r)
    requires Word(g[i][n]) && Word(g[i][n + 1]) && Word(g[i][e]) && Word(g[i][e + 1])
    requires r.name == Offset(Widths(g, h), n) && r.kind == Offset(Widths(g, h), n + 1)
    requires r.clusterIP == Offset(Widths(g, h), n + 2) && r.externalIP == Offset(Widths(g, h), e)
    requires r.port == Offset(Widths(g, h), e + 1) && r.age == Offset(Widths(g, h), e + 2)
    ensures ReadLine(r, Align(g)[i])
            == Return(State(r, Tally(0, 0, [MakeService(g[i][n], g[i][n + 1], g[i][e], g[i][e + 1])], [])))
  {
    CellBetweenOffsets(g, h, i, n);
    CellBetweenOffsets(g, h, i, n + 1);
    CellBetweenOffsets(g, h, i, e);
    CellBetweenOffsets(g, h, i, e + 1);
    OneService(Align(g)[i], r, g[i][n], g[i][n + 1], g[i][e], g[i][e + 1]);
    ServiceLine(r, Align(g)[i], [MakeService(g[i][n], g[i][n + 1], g[i][e], g[i][e + 1])]);
  }

  // ---------- the three kinds of table ----------

  datatype Kind = Workloads | Ingresses | Services

  predicate IsHeader(kind: Kind, header: seq<string>) {
    match kind
    case Workloads => WorkloadHeader(header)
    case Ingresses => IngressHeader(header)
    case Services => ServiceHeader(header)
  }

  /** The columns of the kind are there. */
  predicate HasColumns(kind: Kind, header: seq<string>) {
    match kind
    case Workloads => WorkloadColumns(header)
    case Ingresses => IngressColumns(header)
    case Services => ServiceColumns(header)
  }

  /** The last column that is read from a row. */
  function ReachOf(kind: Kind, header: seq<string>): int {
    match kind
    case Workloads => WorkloadReach(header)
    case Ingresses => IngressReach(header)
    case Services => ServiceReach(header)
  }

  /** A row that can be read below the header; the cells read from a service row must be words. */
  predicate RowFits(kind: Kind, header: seq<string>, row: seq<string>) {
    && HasColumns(kind, header) && TidyRow(row) && |row| > ReachOf(kind, header)
    && (kind == Services ==> ServiceWords(header, row))
  }

  /** What a row says. */
  function RowTally(kind: Kind, header: seq<string>, row: seq<string>): Tally
    requires RowFits(kind, header, row)
  {
    match kind
    case Workloads => WorkloadRow(header, row)
    case Ingresses => IngressRow(header, row)
    case Services => ServiceRow(header, row)
  }

  function RegistersOf(kind: Kind, header: Row, widths: seq<nat>): Registers
    requires Fit(header, widths) && HasColumns(kind, header)
  {
    match kind
    case Workloads => WorkloadRegisters(header, widths)
    case Ingresses => IngressRegisters(header, widths)
    case Services => ServiceRegisters(header, widths)
  }

  lemma HeaderHasColumns(kind: Kind, header: seq<string>)
    requires IsHeader(kind, header)
    ensures HasColumns(kind, header) && 0 <= ReachOf(kind, header) < |header| && TidyRow(header)
  {
  }

  /** An aligned header sets the registers to its columns' offsets and contributes nothing. */
  lemma HeaderSets(kind: Kind, header: Row, widths: seq<nat>)
    requires Fit(header, widths) && IsHeader(kind, header) && HasColumns(kind, header)
    ensures ReadLine(RESET, Render(header, widths))
            == Return(State(RegistersOf(kind, header, widths), NOTHING))
  {
    match kind
    case Workloads => WorkloadHeaderSets(header, widths);
    case Ingresses => IngressHeaderSets(header, widths);
    case Services => ServiceHeaderSets(header, widths);
  }

  /** An aligned row below a header contributes what its own cells say. */
  lemma RowRead(kind: Kind, g: Grid, h: nat, i: nat)
    requires h < i < |g| && RowFits(kind, g[h], g[i])
    requires Reach(g, h, i + 1, ReachOf(kind, g[h])) && RowLine(Align(g)[i])
    ensures var r := RegistersOf(kind, g[h], Widths(g, h));
            ReadLine(r, Align(g)[i]) == Return(State(r, RowTally(kind, g[h], g[i])))
  {
    match kind
    case Workloads => WorkloadRowRead(g, h, i);
    case Ingresses => IngressRowRead(g, h, i);
    case Services => ServiceRowRead(g, h, i);
  }
}
