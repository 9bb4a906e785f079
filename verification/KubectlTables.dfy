/** The tables Kubernetes prints for workloads, services and ingresses are of the kinds the reader
    handles, and printed tables of any length are read back through the whole pipeline; ingress rows
    without an address lose a cell and are read back all the same. */
module KubectlTables {
  import opened Outcomes
  import opened Text
  import opened Decimal
  import opened Elastic
  import opened Columns
  import opened StatusReport
  import opened Tables
  import opened Reports
  import Ports

  const SERVICE_HEADER := [NAME, TYPE, CLUSTER_IP, EXTERNAL_IP, PORTS, AGE]
  const INGRESS_HEADER := [NAME, INGRESS_HOSTS, ADDRESS, INGRESS_PORTS, AGE]
  const UP_TO_DATE := "UP-TO-DATE"
  const DEPLOYMENT_HEADER := [NAME, DESIRED, CURRENT, UP_TO_DATE, AVAILABLE, AGE]
  const STATEFUL_SET_HEADER := [NAME, DESIRED, CURRENT, AGE]

  // ---------- the headers ----------

  lemma HeadersSpelled()
    ensures SERVICE_HEADER == ["NAME", "TYPE", "CLUSTER-IP", "EXTERNAL-IP", "PORT(S)", "AGE"]
    ensures INGRESS_HEADER == ["NAME", "HOSTS", "ADDRESS", "PORTS", "AGE"]
    ensures DEPLOYMENT_HEADER == ["NAME", "DESIRED", "CURRENT", "UP-TO-DATE", "AVAILABLE", "AGE"]
    ensures STATEFUL_SET_HEADER == ["NAME", "DESIRED", "CURRENT", "AGE"]
  {
  }

  predicate LacksBefore(header: seq<string>, n: nat, c: char)
    requires n <= |header|
  {
    forall k :: 0 <= k < n ==> c !in header[k]
  }

  /** Each cell has a character that no earlier cell has. */
  predicate Signed(header: seq<string>, signs: seq<char>) {
    && |signs| == |header|
    && forall j :: 0 <= j < |header| ==> signs[j] in header[j] && LacksBefore(header, j, signs[j])
  }

  /** Such a character makes the cell the first one that holds its own text. */
  lemma {:induction false} SignedColumn(header: seq<string>, j: nat, c: char)
    requires j < |header| && c in header[j] && LacksBefore(header, j, c)
    ensures ColumnOf(header, header[j]) == j && Heads(header, header[j])
    decreases j
  {
    if j == 0 {
      IndexOfPrefix(header[0], header[0]);
    } else {
      IndexNeedsEveryChar(header[0], header[j], c);
      SignedColumn(header[1..], j - 1, c);
    }
  }

  lemma SignedColumns(header: seq<string>, signs: seq<char>)
    requires Signed(header, signs)
    ensures forall j :: 0 <= j < |header| ==> ColumnOf(header, header[j]) == j && Heads(header, header[j])
  {
    forall j | 0 <= j < |header|
      ensures ColumnOf(header, header[j]) == j && Heads(header, header[j])
    {
      SignedColumn(header, j, signs[j]);
    }
  }

  lemma {:induction false} Absent(header: seq<string>, name: string, c: char)
    requires c in name && LacksBefore(header, |header|, c)
    ensures !Has(header, name)
  {
    if header != [] {
      IndexNeedsEveryChar(header[0], name, c);
      Absent(header[1..], name, c);
    }
  }

  predicate LabelChar(c: char) {
    'A' <= c <= 'Z' || c in {'-', '(', ')'}
  }

  lemma LabelIsTidy(name: string)
    requires name != "" && forall i :: 0 <= i < |name| ==> LabelChar(name[i])
    ensures Tidy(name)
  {
  }

  lemma NamesAreTidy()
    ensures Tidy(NAME) && Tidy(AGE) && Tidy(TYPE)
  {
    LabelIsTidy(NAME);
    LabelIsTidy(AGE);
    LabelIsTidy(TYPE);
  }

  lemma AddressesAreTidy()
    ensures Tidy(CLUSTER_IP) && Tidy(EXTERNAL_IP) && Tidy(PORTS)
  {
    LabelIsTidy(CLUSTER_IP);
    LabelIsTidy(EXTERNAL_IP);
    LabelIsTidy(PORTS);
  }

  lemma HostsAreTidy()
    ensures Tidy(INGRESS_HOSTS) && Tidy(ADDRESS) && Tidy(INGRESS_PORTS)
  {
    LabelIsTidy(INGRESS_HOSTS);
    LabelIsTidy(ADDRESS);
    LabelIsTidy(INGRESS_PORTS);
  }

  lemma CountsAreTidy()
    ensures Tidy(DESIRED) && Tidy(CURRENT) && Tidy(UP_TO_DATE) && Tidy(AVAILABLE)
  {
    LabelIsTidy(DESIRED);
    LabelIsTidy(CURRENT);
    LabelIsTidy(UP_TO_DATE);
    LabelIsTidy(AVAILABLE);
  }

  const SERVICE_SIGNS := ['N', 'T', 'C', 'X', '(', 'G']
  const INGRESS_SIGNS := ['N', 'H', 'D', 'P', 'G']
  const DEPLOYMENT_SIGNS := ['N', 'D', 'C', 'P', 'V', 'G']
  const STATEFUL_SET_SIGNS := ['N', 'D', 'C', 'G']

  lemma ServiceSigns()
    ensures Signed(SERVICE_HEADER, SERVICE_SIGNS)
  {
  }

  lemma IngressSigns()
    ensures Signed(INGRESS_HEADER, INGRESS_SIGNS)
  {
  }

  lemma DeploymentSigns()
    ensures Signed(DEPLOYMENT_HEADER, DEPLOYMENT_SIGNS)
  {
  }

  lemma StatefulSetSigns()
    ensures Signed(STATEFUL_SET_HEADER, STATEFUL_SET_SIGNS)
  {
  }

  /** What headers of the three kinds look like, when each cell is found in its own column. */
  predicate OwnColumns(h: seq<string>) {
    TidyRow(h) && forall j :: 0 <= j < |h| ==> ColumnOf(h, h[j]) == j && Heads(h, h[j])
  }

  lemma ServiceHeaderOf(h: seq<string>)
    requires |h| == 6 && h[0] == NAME && h[1] == TYPE && h[2] == CLUSTER_IP && h[3] == EXTERNAL_IP
    requires h[4] == PORTS && h[5] == AGE && OwnColumns(h)
    requires !Has(h, DESIRED) && !Has(h, INGRESS_HOSTS)
    ensures ServiceHeader(h) && ColumnOf(h, NAME) == 0 && ColumnOf(h, EXTERNAL_IP) == 3
  {
  }

  /** NAME, HOSTS and ADDRESS are the first columns. */
  predicate IngressLayout(header: seq<string>) {
    && IngressColumns(header)
    && ColumnOf(header, NAME) == 0 && ColumnOf(header, INGRESS_HOSTS) == 1 && ColumnOf(header, ADDRESS) == 2
  }

  lemma IngressHeaderOf(h: seq<string>)
    requires |h| == 5 && h[0] == NAME && h[1] == INGRESS_HOSTS && h[2] == ADDRESS && h[3] == INGRESS_PORTS
    requires h[4] == AGE && OwnColumns(h)
    requires !Has(h, DESIRED) && !Has(h, TYPE)
    ensures IngressHeader(h) && IngressLayout(h)
  {
  }

  lemma WorkloadHeaderOf(h: seq<string>)
    requires |h| >= 3 && h[1] == DESIRED && h[2] == CURRENT && OwnColumns(h)
    requires !Has(h, AVAILABLE) || (|h| == 6 && h[4] == AVAILABLE)
    requires !Has(h, INGRESS_HOSTS) && !Has(h, TYPE)
    ensures WorkloadHeader(h) && ColumnOf(h, DESIRED) == 1 && ColumnOf(h, CURRENT) == 2
    ensures Has(h, AVAILABLE) ==> ColumnOf(h, AVAILABLE) == 4
  {
  }

  lemma ServiceHeaderIsRead()
    ensures ServiceHeader(SERVICE_HEADER)
    ensures ColumnOf(SERVICE_HEADER, NAME) == 0 && ColumnOf(SERVICE_HEADER, EXTERNAL_IP) == 3
  {
    NamesAreTidy();
    AddressesAreTidy();
    ServiceSigns();
    SignedColumns(SERVICE_HEADER, SERVICE_SIGNS);
    ServiceIsOfOneKind();
    ServiceHeaderOf(SERVICE_HEADER);
  }

  lemma ServiceIsOfOneKind()
    ensures !Has(SERVICE_HEADER, DESIRED) && !Has(SERVICE_HEADER, INGRESS_HOSTS)
  {
    Absent(SERVICE_HEADER, DESIRED, 'D');
    Absent(SERVICE_HEADER, INGRESS_HOSTS, 'H');
  }

  lemma IngressHeaderIsRead()
    ensures IngressHeader(INGRESS_HEADER) && IngressLayout(INGRESS_HEADER)
  {
    NamesAreTidy();
    HostsAreTidy();
    IngressSigns();
    SignedColumns(INGRESS_HEADER, INGRESS_SIGNS);
    IngressIsOfOneKind();
    IngressHeaderOf(INGRESS_HEADER);
  }

  lemma IngressIsOfOneKind()
    ensures !Has(INGRESS_HEADER, DESIRED) && !Has(INGRESS_HEADER, TYPE)
  {
    Absent(INGRESS_HEADER, DESIRED, 'I');
    Absent(INGRESS_HEADER, TYPE, 'Y');
  }

  lemma DeploymentHeaderIsRead()
    ensures WorkloadHeader(DEPLOYMENT_HEADER)
    ensures ColumnOf(DEPLOYMENT_HEADER, DESIRED) == 1 && ColumnOf(DEPLOYMENT_HEADER, CURRENT) == 2
    ensures ColumnOf(DEPLOYMENT_HEADER, AVAILABLE) == 4
  {
    NamesAreTidy();
    CountsAreTidy();
    DeploymentSigns();
    SignedColumns(DEPLOYMENT_HEADER, DEPLOYMENT_SIGNS);
    assert DEPLOYMENT_HEADER[4] == AVAILABLE;
    DeploymentIsOfOneKind();
    WorkloadHeaderOf(DEPLOYMENT_HEADER);
  }

  lemma DeploymentIsOfOneKind()
    ensures !Has(DEPLOYMENT_HEADER, INGRESS_HOSTS) && !Has(DEPLOYMENT_HEADER, TYPE)
  {
    Absent(DEPLOYMENT_HEADER, INGRESS_HOSTS, 'H');
    Absent(DEPLOYMENT_HEADER, TYPE, 'Y');
  }

  lemma StatefulSetHeaderIsRead()
    ensures WorkloadHeader(STATEFUL_SET_HEADER) && !Has(STATEFUL_SET_HEADER, AVAILABLE)
    ensures ColumnOf(STATEFUL_SET_HEADER, DESIRED) == 1 && ColumnOf(STATEFUL_SET_HEADER, CURRENT) == 2
  {
    NamesAreTidy();
    CountsAreTidy();
    StatefulSetSigns();
    SignedColumns(STATEFUL_SET_HEADER, STATEFUL_SET_SIGNS);
    StatefulSetIsOfOneKind();
    WorkloadHeaderOf(STATEFUL_SET_HEADER);
  }

  lemma StatefulSetIsOfOneKind()
    ensures !Has(STATEFUL_SET_HEADER, INGRESS_HOSTS) && !Has(STATEFUL_SET_HEADER, TYPE)
    ensures !Has(STATEFUL_SET_HEADER, AVAILABLE)
  {
    Absent(STATEFUL_SET_HEADER, INGRESS_HOSTS, 'H');
    Absent(STATEFUL_SET_HEADER, TYPE, 'Y');
    Absent(STATEFUL_SET_HEADER, AVAILABLE, 'V');
  }

  // ---------- printed tables of one kind ----------

  /** A title line and a header line. */
  predicate Titled(t: Table, header: seq<string>) {
    && Tidy(RESOURCE_PREFIX + t.title) && RowLine(RESOURCE_PREFIX + t.title)
    && t.lines != [] && t.lines[0].cells == header && Printable(header, t.lines[0].gaps)
  }

  /** A printed row that fits the header and says `tally`. */
  predicate RowSays(kind: Kind, header: seq<string>, p: Printed, tally: Tally) {
    && Printable(p.cells, p.gaps) && BodyRow(kind, header, NonEmpty(p.cells))
    && RowTally(kind, header, NonEmpty(p.cells)) == tally
  }

  /** A title, a header of the kind, and rows that say `tallies`. */
  predicate Says(kind: Kind, t: Table, header: seq<string>, tallies: seq<Tally>) {
    && Titled(t, header) && IsHeader(kind, header) && |t.lines| == |tallies| + 1
    && forall i :: 0 <= i < |tallies| ==> RowSays(kind, header, t.lines[i + 1], tallies[i])
  }

  lemma SaysPrinted(kind: Kind, t: Table, header: seq<string>, tallies: seq<Tally>)
    requires Says(kind, t, header, tallies)
    ensures WellPrinted(t)
  {
    forall i | 0 <= i < |t.lines|
      ensures Printable(t.lines[i].cells, t.lines[i].gaps)
    {
      assert i == 0 || RowSays(kind, header, t.lines[i - 1 + 1], tallies[i - 1]);
    }
  }

  lemma SaysHeader(kind: Kind, t: Table, header: seq<string>, tallies: seq<Tally>)
    requires Says(kind, t, header, tallies) && WellPrinted(t)
    ensures GridOf(t)[1] == header
  {
    HeaderHasColumns(kind, header);
    NonEmptyOfFilled(header);
    GridLine(t, 0, header);
  }

  lemma SaysRow(kind: Kind, t: Table, header: seq<string>, tallies: seq<Tally>, i: nat)
    requires Says(kind, t, header, tallies) && WellPrinted(t) && i < |tallies|
    ensures BodyRow(kind, header, GridOf(t)[i + 2]) && RowTally(kind, header, GridOf(t)[i + 2]) == tallies[i]
  {
    GridLine(t, i + 1, t.lines[i + 1].cells);
    assert RowSays(kind, header, t.lines[i + 1], tallies[i]);
  }

  lemma SaysBodyRow(kind: Kind, t: Table, header: seq<string>, tallies: seq<Tally>, i: nat)
    requires Says(kind, t, header, tallies) && WellPrinted(t) && 2 <= i < |tallies| + 2
    ensures BodyRow(kind, header, GridOf(t)[i])
  {
    GridLine(t, i - 1, t.lines[i - 1].cells);
    assert RowSays(kind, header, t.lines[i - 2 + 1], tallies[i - 2]);
  }

  lemma GridIsTable(kind: Kind, g: Grid, header: seq<string>)
    requires |g| >= 2 && g[1] == header && IsHeader(kind, header)
    requires |g[0]| == 1 && RowLine(g[0][0])
    requires forall i :: 2 <= i < |g| ==> BodyRow(kind, header, g[i])
    ensures IsTable(kind, g)
  {
  }

  lemma SaysBody(kind: Kind, t: Table, g: Grid, header: seq<string>, tallies: seq<Tally>)
    requires Says(kind, t, header, tallies) && WellPrinted(t) && g == GridOf(t)
    ensures forall i :: 2 <= i < |g| ==> BodyRow(kind, header, g[i])
  {
    forall i | 2 <= i < |g|
      ensures BodyRow(kind, header, g[i])
    {
      SaysBodyRow(kind, t, header, tallies, i);
    }
  }

  lemma SaysIsTable(kind: Kind, t: Table, header: seq<string>, tallies: seq<Tally>)
    requires Says(kind, t, header, tallies) && WellPrinted(t)
    ensures IsTable(kind, GridOf(t))
  {
    SaysHeader(kind, t, header, tallies);
    var g := GridOf(t);
    SaysBody(kind, t, g, header, tallies);
    GridIsTable(kind, g, header);
  }

  lemma SaysRows(kind: Kind, t: Table, header: seq<string>, tallies: seq<Tally>)
    requires Says(kind, t, header, tallies) && WellPrinted(t) && IsTable(kind, GridOf(t))
    ensures RowsOf(kind, GridOf(t)) == tallies
  {
    SaysHeader(kind, t, header, tallies);
    forall i: nat | i < |tallies|
      ensures RowBelow(kind, GridOf(t), i) == tallies[i]
    {
      SaysRow(kind, t, header, tallies, i);
    }
  }

  /** A report of one printed table is read back as what its rows say. */
  lemma TableReadsBack(kind: Kind, t: Table, header: seq<string>, tallies: seq<Tally>)
    requires Says(kind, t, header, tallies)
    ensures ValidReport([t]) && ReportRows([t]) == tallies
    ensures ReadSection(ScanLines(FormatResources(PrintReport([t])))) == Return(Sum(tallies))
  {
    SaysPrinted(kind, t, header, tallies);
    SaysIsTable(kind, t, header, tallies);
    SaysRows(kind, t, header, tallies);
    TableRowsOf(kind, GridOf(t));
    assert ReportRows([t]) == TableRows(GridOf(t)) + ReportRows([]) by {
      assert [t][1..] == [];
    }
    ReportReadsBack([t]);
  }

  // ---------- ingresses without an address ----------

  /** An ingress whose ADDRESS cell is empty. Its HOSTS cell starts with the hosts; `others` is empty or
      follows a space, as in "a,b,c + 2 more...". Its PORTS cell starts with the port; `more` is empty or
      continues after a comma. */
  datatype PendingIngress = PendingIngress(name: string, hosts: seq<string>, others: string, port: Int,
                                           more: string, age: string, gaps: seq<nat>)

  function HostCell(e: PendingIngress): string {
    Join(e.hosts, ',') + e.others
  }

  function CellsOf(e: PendingIngress): (cells: seq<string>)
    ensures |cells| == 5
  {
    [e.name, HostCell(e), "", Itoa(e.port) + e.more, e.age]
  }

  predicate ValidIngress(e: PendingIngress) {
    && Printable(CellsOf(e), e.gaps)
    && Word(e.name) && Word(Join(e.hosts, ',')) && e.hosts != []
    && (forall h :: h in e.hosts ==> ',' !in h)
    && (e.others == "" || e.others[0] == ' ')
    && e.age != ""
    && (e.more == "" || e.more[0] == ',')
  }

  lemma CellsWithoutAddress(e: PendingIngress)
    requires ValidIngress(e)
    ensures NonEmpty(CellsOf(e)) == [e.name, HostCell(e), Itoa(e.port) + e.more, e.age]
    ensures TidyRow(NonEmpty(CellsOf(e)))
  {
    ItoaAlphabet(e.port);
    var c := CellsOf(e);
    assert NonEmpty(c[4..]) == [e.age] by {
      assert c[4..] == [e.age];
    }
    assert NonEmpty(c[3..]) == [c[3]] + NonEmpty(c[4..]) by {
      assert c[3..][1..] == c[4..];
    }
    assert NonEmpty(c[2..]) == NonEmpty(c[3..]) by {
      assert c[2..][1..] == c[3..];
    }
    assert NonEmpty(c[1..]) == [c[1]] + NonEmpty(c[2..]) by {
      assert c[1..][1..] == c[2..];
    }
    assert NonEmpty(c) == [c[0]] + NonEmpty(c[1..]);
  }

  lemma PartBeforeComma(number: string, rest: string)
    requires ',' !in number
    ensures Split(number, ',')[0] == number && Split(number + [','] + rest, ',')[0] == number
  {
    SplitWithoutSeparator(number, ',');
    SplitAtSeparator(number, ',', rest);
  }

  /** The part before the first comma of a text that starts with a number is that number. */
  lemma NumberBeforeComma(port: Int, rest: string)
    requires rest == "" || rest[0] == ','
    ensures NumberOr(Split(Itoa(port) + rest, ',')[0], 0) == port
  {
    assert ',' !in Itoa(port) by {
      ItoaAlphabet(port);
    }
    PartBeforeComma(Itoa(port), if rest == "" then "" else rest[1..]);
    assert Itoa(port) + rest == if rest == "" then Itoa(port) else Itoa(port) + [','] + rest[1..];
    AtoiItoa(port);
  }

  /** The first comma-separated part of the first word of a port cell is its first port. */
  lemma FirstPort(port: Int, more: string)
    requires Tidy(Itoa(port) + more) && (more == "" || more[0] == ',')
    ensures NumberOr(Split(FirstWord(Itoa(port) + more), ',')[0], 0) == port
  {
    ItoaAlphabet(port);
    WordLengthPast(Itoa(port), more, SPACES);
    FirstWordIsPrefix(Itoa(port) + more);
    var rest := more[..WordLength(more, SPACES)];
    assert FirstWord(Itoa(port) + more) == Itoa(port) + rest;
    NumberBeforeComma(port, rest);
  }

  lemma FirstWordIsPrefix(cell: string)
    requires Tidy(cell)
    ensures FirstWord(cell) == cell[..WordLength(cell, SPACES)]
  {
    assert cell[0] !in SPACES;
  }

  /** Squeezing moves the PORTS cell under ADDRESS, where the reader looks: it finds all printed hosts and
      the first port. */
  lemma IngressWithoutAddress(header: seq<string>, e: PendingIngress)
    requires ValidIngress(e) && IngressLayout(header)
    ensures TidyRow(NonEmpty(CellsOf(e))) && |NonEmpty(CellsOf(e))| == 4
    ensures IngressRow(header, NonEmpty(CellsOf(e))) == Tally(0, 0, [], [Ingress(e.name, e.hosts, e.port)])
  {
    CellsWithoutAddress(e);
    IngressWords(e);
  }

  lemma IngressWords(e: PendingIngress)
    requires ValidIngress(e)
    ensures Tidy(e.name) && FirstWord(e.name) == e.name
    ensures Tidy(HostCell(e)) && Split(FirstWord(HostCell(e)), ',') == e.hosts
    ensures Tidy(Itoa(e.port) + e.more)
    ensures NumberOr(Split(FirstWord(Itoa(e.port) + e.more), ',')[0], 0) == e.port
  {
    assert Tidy(CellsOf(e)[3]) by {
      ItoaAlphabet(e.port);
    }
    FirstPort(e.port, e.more);
    FirstWordOfWord(e.name);
    assert Tidy(CellsOf(e)[1]);
    HostWord(e.hosts, e.others);
  }

  /** The reader stops at the space before the number of further hosts. */
  lemma HostWord(hosts: seq<string>, others: string)
    requires hosts != [] && Word(Join(hosts, ',')) && forall h :: h in hosts ==> ',' !in h
    requires Tidy(Join(hosts, ',') + others) && (others == "" || others[0] == ' ')
    ensures Split(FirstWord(Join(hosts, ',') + others), ',') == hosts
  {
    var joined := Join(hosts, ',');
    if others == "" {
      assert joined + others == joined;
      FirstWordOfWord(joined);
    } else {
      assert joined + others == joined + " " + others[1..];
      FirstWordOfTwo(joined, others[1..]);
    }
    SplitJoin(hosts, ',');
  }

  function IngressesOf(es: seq<PendingIngress>): (r: seq<Ingress>)
    ensures |r| == |es|
  {
    seq(|es|, i requires 0 <= i < |es| => Ingress(es[i].name, es[i].hosts, es[i].port))
  }

  function IngressTallies(ingresses: seq<Ingress>): (r: seq<Tally>)
    ensures |r| == |ingresses|
  {
    seq(|ingresses|, i requires 0 <= i < |ingresses| => Tally(0, 0, [], [ingresses[i]]))
  }

  lemma {:induction false} SumOfIngresses(ingresses: seq<Ingress>)
    ensures Sum(IngressTallies(ingresses)) == Tally(0, 0, [], ingresses)
  {
    if ingresses != [] {
      SumOfIngresses(ingresses[1..]);
      assert IngressTallies(ingresses)[1..] == IngressTallies(ingresses[1..]);
      assert [ingresses[0]] + ingresses[1..] == ingresses;
    }
  }

  predicate ListsIngresses(t: Table, es: seq<PendingIngress>) {
    && Titled(t, INGRESS_HEADER) && |t.lines| == |es| + 1
    && forall i :: 0 <= i < |es| ==> LineOf(t.lines[i + 1], es[i])
  }

  predicate LineOf(p: Printed, e: PendingIngress) {
    p == Printed(CellsOf(e), e.gaps) && ValidIngress(e) && Plain(NonEmpty(CellsOf(e)))
  }

  lemma IngressRowSays(header: seq<string>, e: PendingIngress)
    requires LineOf(Printed(CellsOf(e), e.gaps), e) && IngressLayout(header)
    ensures RowSays(Ingresses, header, Printed(CellsOf(e), e.gaps),
                    Tally(0, 0, [], [Ingress(e.name, e.hosts, e.port)]))
  {
    IngressWithoutAddress(header, e);
  }

  /** A printed table of any number of ingresses without an address is read back: their names, all hosts
      that were printed and their first ports. */
  lemma PendingIngressesReadBack(t: Table, es: seq<PendingIngress>)
    requires ListsIngresses(t, es)
    ensures ValidReport([t])
    ensures ReadSection(ScanLines(FormatResources(PrintReport([t]))))
            == Return(Tally(0, 0, [], IngressesOf(es)))
  {
    IngressHeaderIsRead();
    PendingRowsReadBack(t, INGRESS_HEADER, es);
  }

  lemma PendingRowsReadBack(t: Table, header: seq<string>, es: seq<PendingIngress>)
    requires Titled(t, header) && |t.lines| == |es| + 1
    requires forall i :: 0 <= i < |es| ==> LineOf(t.lines[i + 1], es[i])
    requires IngressHeader(header) && IngressLayout(header)
    ensures ValidReport([t])
    ensures ReadSection(ScanLines(FormatResources(PrintReport([t]))))
            == Return(Tally(0, 0, [], IngressesOf(es)))
  {
    var tallies := IngressTallies(IngressesOf(es));
    forall i | 0 <= i < |es|
      ensures RowSays(Ingresses, header, t.lines[i + 1], tallies[i])
    {
      assert LineOf(t.lines[i + 1], es[i]);
      IngressRowSays(header, es[i]);
    }
    TableReadsBack(Ingresses, t, header, tallies);
    SumOfIngresses(IngressesOf(es));
  }

  // ---------- how Kubernetes prints the hosts ----------

  const MAX_HOSTS := 3

  /** The first `n` rules that name a host. */
  function FirstHosts(rules: seq<string>, n: nat): (hosts: seq<string>)
    ensures forall h :: h in hosts ==> h in rules && h != ""
  {
    if rules == [] || n == 0 then []
    else if rules[0] == "" then FirstHosts(rules[1..], n)
    else [rules[0]] + FirstHosts(rules[1..], n - 1)
  }

  /** Some rule follows after `n` hosts. */
  predicate FurtherRules(rules: seq<string>, n: nat) {
    rules != [] && (n == 0 || FurtherRules(rules[1..], if rules[0] == "" then n else n - 1))
  }

  /** In other words: the first `n` of the rules that are not empty, and whether any rule follows the last
      of these. */
  lemma {:induction false} FirstHostsExactly(rules: seq<string>, n: nat)
    ensures var named := NonEmpty(rules);
            FirstHosts(rules, n) == if |named| <= n then named else named[..n]
    ensures FurtherRules(rules, n) <==> exists k :: 0 <= k < |rules| && |NonEmpty(rules[..k])| == n
  {
    if rules == [] {
    } else if n == 0 {
      assert NonEmpty(rules[..0]) == [];
    } else {
      var m := if rules[0] == "" then n else n - 1;
      FirstHostsExactly(rules[1..], m);
      forall k | 0 < k < |rules|
        ensures |NonEmpty(rules[..k])| == |NonEmpty(rules[1..][..k - 1])| + n - m
      {
        assert rules[..k][1..] == rules[1..][..k - 1];
      }
      if k :| 0 <= k < |rules[1..]| && |NonEmpty(rules[1..][..k])| == m {
        assert |NonEmpty(rules[..k + 1])| == n;
      }
    }
  }

  function MoreText(n: int): string {
    "+" + " " + Itoa(n) + " " + "more..."
  }

  /** The HOSTS cell: at most three hosts, and then only the number of the others. */
  function FormatHosts(rules: seq<string>): string {
    var hosts := FirstHosts(rules, MAX_HOSTS);
    if hosts == [] then "*"
    else if FurtherRules(rules, MAX_HOSTS) then Join(hosts, ',') + " " + MoreText(|rules| - MAX_HOSTS)
    else Join(hosts, ',')
  }

  predicate HostRule(rule: string) {
    rule == "" || (Word(rule) && ',' !in rule)
  }

  lemma {:induction false} JoinIsWord(parts: seq<string>)
    requires parts != [] && forall p :: p in parts ==> Word(p)
    ensures Word(Join(parts, ','))
  {
    if |parts| > 1 {
      JoinIsWord(parts[1..]);
      WordsAcrossComma(parts[0], Join(parts[1..], ','));
    }
  }

  lemma WordsAcrossComma(a: string, b: string)
    requires Word(a) && Word(b)
    ensures Word(a + [','] + b)
  {
    forall c | c in a + [','] + b
      ensures c !in SPACES
    {
      assert c in a || c == ',' || c in b;
    }
  }

  lemma TidyThen(a: string, b: string)
    requires Tidy(a) && Word(b)
    ensures Tidy(a + " " + b)
  {
    var s := a + " " + b;
    assert s[|a|] == ' ' && s[|a| + 1] == b[0] && s[|s| - 1] == b[|b| - 1];
    forall i | 0 <= i < |s| - 1
      ensures s[i] != ' ' || s[i + 1] != ' '
    {
      if i > |a| {
        assert s[i] == b[i - |a| - 1] && b[i - |a| - 1] in b;
      }
    }
  }

  lemma MoreWords()
    ensures Word("+") && Word("more...")
  {
  }

  lemma SpacesAssociate(a: string, b: string, c: string, d: string)
    ensures a + " " + (b + " " + c + " " + d) == a + " " + b + " " + c + " " + d
  {
  }

  lemma TidyMore(w: string, n: int)
    requires Word(w)
    ensures Tidy(w + " " + MoreText(n))
  {
    var plus, number, more := "+", Itoa(n), "more...";
    FirstWordOfWord(w);
    MoreWords();
    assert Word(number) by {
      ItoaAlphabet(n);
    }
    TidyThen(w, plus);
    TidyThen(w + " " + plus, number);
    TidyThen(w + " " + plus + " " + number, more);
    SpacesAssociate(w, plus, number, more);
  }

  /** What a cell printed for these rules holds: hosts, and the text after them. */
  function PrintedHosts(rules: seq<string>): seq<string> {
    if FirstHosts(rules, MAX_HOSTS) == [] then ["*"] else FirstHosts(rules, MAX_HOSTS)
  }

  function PrintedOthers(rules: seq<string>): string {
    if FirstHosts(rules, MAX_HOSTS) != [] && FurtherRules(rules, MAX_HOSTS)
    then " " + MoreText(|rules| - MAX_HOSTS) else ""
  }

  /** So ingresses with any rules are among the printed ingresses above. */
  lemma HostCellOfRules(rules: seq<string>, e: PendingIngress)
    requires e.hosts == PrintedHosts(rules) && e.others == PrintedOthers(rules)
    requires forall r :: r in rules ==> HostRule(r)
    ensures HostCell(e) == FormatHosts(rules) && Word(Join(e.hosts, ','))
    ensures forall h :: h in e.hosts ==> ',' !in h
  {
    assert Word("*") && ',' !in "*";
    JoinIsWord(e.hosts);
  }

  /** Of an ingress with any rules the reader gets the first three hosts, or "*" if there is none; the
      others are lost. */
  lemma FirstHostsRead(rules: seq<string>)
    requires forall r :: r in rules ==> HostRule(r)
    ensures Tidy(FormatHosts(rules))
    ensures Split(FirstWord(FormatHosts(rules)), ',') == PrintedHosts(rules)
  {
    var hosts := PrintedHosts(rules);
    assert Word("*") && ',' !in "*";
    JoinIsWord(hosts);
    SplitJoin(hosts, ',');
    FirstWordOfWord(Join(hosts, ','));
    if FirstHosts(rules, MAX_HOSTS) != [] && FurtherRules(rules, MAX_HOSTS) {
      TidyMore(Join(hosts, ','), |rules| - MAX_HOSTS);
      FirstWordOfTwo(Join(hosts, ','), MoreText(|rules| - MAX_HOSTS));
    }
  }

  // ---------- ingresses with an address ----------

  /** An ingress with an address: its ADDRESS cell is a word. */
  datatype AddressedIngress = AddressedIngress(name: string, hosts: seq<string>, others: string, address: string,
                                               ports: string, age: string, gaps: seq<nat>)

  function AddressedCells(e: AddressedIngress): (cells: seq<string>)
    ensures |cells| == 5
  {
    [e.name, Join(e.hosts, ',') + e.others, e.address, e.ports, e.age]
  }

  predicate AddressedLine(p: Printed, e: AddressedIngress) {
    && p == Printed(AddressedCells(e), e.gaps) && Printable(p.cells, p.gaps) && Plain(p.cells)
    && Word(e.name) && Word(Join(e.hosts, ',')) && Word(e.address) && e.hosts != []
    && (forall h :: h in e.hosts ==> ',' !in h) && (e.others == "" || e.others[0] == ' ')
    && e.ports != "" && e.age != ""
  }

  predicate ListsAddressed(t: Table, es: seq<AddressedIngress>) {
    && Titled(t, INGRESS_HEADER) && |t.lines| == |es| + 1
    && forall i :: 0 <= i < |es| ==> AddressedLine(t.lines[i + 1], es[i])
  }

  function AddressedOf(e: AddressedIngress): Ingress {
    Ingress(e.name, e.hosts, NumberOr(Split(e.address, ',')[0], 0))
  }

  lemma AddressedRow(header: seq<string>, e: AddressedIngress)
    requires AddressedLine(Printed(AddressedCells(e), e.gaps), e) && IngressLayout(header)
    ensures NonEmpty(AddressedCells(e)) == AddressedCells(e) && TidyRow(AddressedCells(e))
    ensures IngressRow(header, AddressedCells(e)) == Tally(0, 0, [], [AddressedOf(e)])
  {
    var cells := AddressedCells(e);
    assert Tidy(cells[1]);
    FilledCells(cells, e.gaps);
    FirstWordOfWord(e.name);
    FirstWordOfWord(e.address);
    HostWord(e.hosts, e.others);
  }

  lemma AddressedRowSays(header: seq<string>, e: AddressedIngress)
    requires AddressedLine(Printed(AddressedCells(e), e.gaps), e) && IngressLayout(header)
    ensures RowSays(Ingresses, header, Printed(AddressedCells(e), e.gaps), Tally(0, 0, [], [AddressedOf(e)]))
  {
    AddressedRow(header, e);
  }

  lemma AddressedRowsReadBack(t: Table, header: seq<string>, es: seq<AddressedIngress>)
    requires Titled(t, header) && |t.lines| == |es| + 1
    requires forall i :: 0 <= i < |es| ==> AddressedLine(t.lines[i + 1], es[i])
    requires IngressHeader(header) && IngressLayout(header)
    ensures ValidReport([t])
    ensures ReadSection(ScanLines(FormatResources(PrintReport([t]))))
            == Return(Tally(0, 0, [], seq(|es|, i requires 0 <= i < |es| => AddressedOf(es[i]))))
  {
    var ingresses := seq(|es|, i requires 0 <= i < |es| => AddressedOf(es[i]));
    var tallies := IngressTallies(ingresses);
    forall i | 0 <= i < |es|
      ensures RowSays(Ingresses, header, t.lines[i + 1], tallies[i])
    {
      assert AddressedLine(t.lines[i + 1], es[i]);
      AddressedRowSays(header, es[i]);
    }
    TableReadsBack(Ingresses, t, header, tallies);
    SumOfIngresses(ingresses);
  }

  /** A printed table of any number of ingresses with an address is read back with their names and printed
      hosts, but the port is looked for in the address: it is 0 unless the address starts with a number and
      a comma, or is one. */
  lemma AddressedIngressesReadBack(t: Table, es: seq<AddressedIngress>)
    requires ListsAddressed(t, es)
    ensures ValidReport([t])
    ensures var r := ReadSection(ScanLines(FormatResources(PrintReport([t]))));
            && r.Return? && r.value.services == [] && |r.value.ingresses| == |es|
            && forall i :: 0 <= i < |es| ==>
                             var ingress := r.value.ingresses[i];
                             && ingress.name == es[i].name && ingress.hosts == es[i].hosts
                             && Counts(Split(es[i].address, ',')[0], 0, ingress.port)
  {
    IngressHeaderIsRead();
    AddressedRowsReadBack(t, INGRESS_HEADER, es);
    forall i | 0 <= i < |es|
      ensures Counts(Split(es[i].address, ',')[0], 0, AddressedOf(es[i]).port)
    {
      NumberOrCounts(Split(es[i].address, ',')[0], 0);
    }
  }

  // ---------- services ----------

  /** A service row: all cells filled, and a printed port list in the PORT(S) cell. */
  datatype ServiceEntry = ServiceEntry(name: string, kind: string, clusterIP: string, externalIP: string,
                                       ports: seq<Ports.Entry>, age: string, gaps: seq<nat>)

  function ServiceCellsOf(e: ServiceEntry): (cells: seq<string>)
    ensures |cells| == 6
  {
    [e.name, e.kind, e.clusterIP, e.externalIP, Ports.PrintPorts(e.ports), e.age]
  }

  predicate ServiceLine(p: Printed, e: ServiceEntry) {
    && p == Printed(ServiceCellsOf(e), e.gaps) && Printable(p.cells, p.gaps) && Plain(p.cells)
    && Word(e.name) && Word(e.kind) && Word(e.externalIP) && Word(Ports.PrintPorts(e.ports))
    && e.clusterIP != "" && e.age != ""
    && e.ports != [] && Ports.ValidEntries(e.ports)
  }

  predicate ListsServices(t: Table, es: seq<ServiceEntry>) {
    && Titled(t, SERVICE_HEADER) && |t.lines| == |es| + 1
    && forall i :: 0 <= i < |es| ==> ServiceLine(t.lines[i + 1], es[i])
  }

  function ServiceOf(e: ServiceEntry): Service {
    MakeService(e.name, e.kind, e.externalIP, Ports.PrintPorts(e.ports))
  }

  function ServicesOf(es: seq<ServiceEntry>): (r: seq<Service>)
    ensures |r| == |es|
  {
    seq(|es|, i requires 0 <= i < |es| => ServiceOf(es[i]))
  }

  function ServiceTallies(services: seq<Service>): (r: seq<Tally>)
    ensures |r| == |services|
  {
    seq(|services|, i requires 0 <= i < |services| => Tally(0, 0, [services[i]], []))
  }

  lemma {:induction false} SumOfServices(services: seq<Service>)
    ensures Sum(ServiceTallies(services)) == Tally(0, 0, services, [])
  {
    if services != [] {
      SumOfServices(services[1..]);
      assert ServiceTallies(services)[1..] == ServiceTallies(services[1..]);
      assert [services[0]] + services[1..] == services;
    }
  }

  lemma FilledCells(cells: seq<string>, gaps: seq<nat>)
    requires Printable(cells, gaps) && forall k :: 0 <= k < |cells| ==> cells[k] != ""
    ensures NonEmpty(cells) == cells && TidyRow(cells)
  {
    NonEmptyOfFilled(cells);
  }

  /** NAME is the first of six columns and EXTERNAL-IP the fourth. */
  predicate ServiceLayout(header: seq<string>) {
    && ServiceColumns(header) && ColumnOf(header, NAME) == 0 && ColumnOf(header, EXTERNAL_IP) == 3
  }

  lemma ServiceRowSays(header: seq<string>, e: ServiceEntry)
    requires ServiceLine(Printed(ServiceCellsOf(e), e.gaps), e) && ServiceLayout(header)
    ensures RowSays(Services, header, Printed(ServiceCellsOf(e), e.gaps), Tally(0, 0, [ServiceOf(e)], []))
  {
    FilledCells(ServiceCellsOf(e), e.gaps);
  }

  /** The entry's own name, type and address, and exactly the ports that were printed. */
  ghost predicate IsServiceOf(s: Service, e: ServiceEntry) {
    && s.name == e.name && s.serviceType == e.kind && s.externalIP == e.externalIP
    && Ports.Describes(e.ports, Ports.PortMaps(s.clusterPorts, s.nodePorts))
  }

  lemma ServiceOfEntry(e: ServiceEntry)
    requires e.ports != [] && Ports.ValidEntries(e.ports)
    ensures IsServiceOf(ServiceOf(e), e)
  {
    Ports.PortListRoundTrip(e.ports);
  }

  lemma ServiceRowsReadBack(t: Table, header: seq<string>, es: seq<ServiceEntry>)
    requires Titled(t, header) && |t.lines| == |es| + 1
    requires forall i :: 0 <= i < |es| ==> ServiceLine(t.lines[i + 1], es[i])
    requires ServiceHeader(header) && ServiceLayout(header)
    ensures ValidReport([t])
    ensures ReadSection(ScanLines(FormatResources(PrintReport([t]))))
            == Return(Tally(0, 0, ServicesOf(es), []))
  {
    var tallies := ServiceTallies(ServicesOf(es));
    forall i | 0 <= i < |es|
      ensures RowSays(Services, header, t.lines[i + 1], tallies[i])
    {
      assert ServiceLine(t.lines[i + 1], es[i]);
      ServiceRowSays(header, es[i]);
    }
    TableReadsBack(Services, t, header, tallies);
    SumOfServices(ServicesOf(es));
  }

  /** A printed table of any number of services is read back in full: one service per row, in order, with
      its own name, type, address and ports. */
  lemma ServicesReadBack(t: Table, es: seq<ServiceEntry>)
    requires ListsServices(t, es)
    ensures ValidReport([t])
    ensures ReadSection(ScanLines(FormatResources(PrintReport([t]))))
            == Return(Tally(0, 0, ServicesOf(es), []))
    ensures forall i :: 0 <= i < |es| ==> IsServiceOf(ServicesOf(es)[i], es[i])
  {
    ServiceHeaderIsRead();
    ServiceRowsReadBack(t, SERVICE_HEADER, es);
    forall i | 0 <= i < |es|
      ensures IsServiceOf(ServicesOf(es)[i], es[i])
    {
      assert ServiceLine(t.lines[i + 1], es[i]);
      ServiceOfEntry(es[i]);
    }
  }

  /** The status of a printed table of services holds one service per row, in order, with its own name,
      type, address and exactly the printed ports. */
  lemma StatusOfServices(t: Table, es: seq<ServiceEntry>, name: string, namespace: string, lastDeployment: int,
                         timeout: int, now: int, code: Code)
    requires ListsServices(t, es)
    ensures WellPrinted(t)
    ensures var r := StatusOf(name, namespace, lastDeployment, timeout, now, code, PrintReport([t]));
            && r.Return? && |r.value.services| == |es| && r.value.ingresses == []
            && forall i :: 0 <= i < |es| ==> IsServiceOf(r.value.services[i], es[i])
  {
    ServicesReadBack(t, es);
    StreamingIsSectionwise(ScanLines(FormatResources(PrintReport([t]))));
  }

  /** The same for ingresses without an address: the names, the printed hosts and the first ports. */
  lemma StatusOfIngresses(t: Table, es: seq<PendingIngress>, name: string, namespace: string, lastDeployment: int,
                          timeout: int, now: int, code: Code)
    requires ListsIngresses(t, es)
    ensures WellPrinted(t)
    ensures var r := StatusOf(name, namespace, lastDeployment, timeout, now, code, PrintReport([t]));
            && r.Return? && |r.value.ingresses| == |es| && r.value.services == []
            && forall i :: 0 <= i < |es| ==>
                             var ingress := r.value.ingresses[i];
                             && ingress.name == es[i].name && ingress.hosts == es[i].hosts
                             && ingress.port == es[i].port
  {
    PendingIngressesReadBack(t, es);
    StreamingIsSectionwise(ScanLines(FormatResources(PrintReport([t]))));
  }

  // ---------- deployments ----------

  datatype Deployment = Deployment(name: string, desired: Int, current: Int, upToDate: Int, available: Int,
                                   age: string, gaps: seq<nat>)

  function DeploymentCellsOf(e: Deployment): (cells: seq<string>)
    ensures |cells| == 6
  {
    [e.name, Itoa(e.desired), Itoa(e.current), Itoa(e.upToDate), Itoa(e.available), e.age]
  }

  predicate DeploymentLine(p: Printed, e: Deployment) {
    && p == Printed(DeploymentCellsOf(e), e.gaps) && Printable(p.cells, p.gaps) && Plain(p.cells)
  }

  predicate ListsDeployments(t: Table, es: seq<Deployment>) {
    && Titled(t, DEPLOYMENT_HEADER) && |t.lines| == |es| + 1
    && forall i :: 0 <= i < |es| ==> DeploymentLine(t.lines[i + 1], es[i])
  }

  function DeploymentTallies(es: seq<Deployment>): (r: seq<Tally>)
    ensures |r| == |es|
  {
    seq(|es|, i requires 0 <= i < |es| => Tally(es[i].desired, es[i].available, [], []))
  }

  /** A printed number is a word, and is read back as itself. */
  lemma NumberCell(n: Int)
    ensures Tidy(Itoa(n)) && FirstWord(Itoa(n)) == Itoa(n)
    ensures forall default: Int :: NumberOr(Itoa(n), default) == n
  {
    ItoaAlphabet(n);
    FirstWordOfWord(Itoa(n));
    AtoiItoa(n);
  }

  /** DESIRED, CURRENT and AVAILABLE are columns 1, 2 and 4. */
  predicate DeploymentLayout(header: seq<string>) {
    ColumnOf(header, DESIRED) == 1 && ColumnOf(header, CURRENT) == 2 && ColumnOf(header, AVAILABLE) == 4
  }

  lemma DeploymentRowSays(header: seq<string>, e: Deployment)
    requires DeploymentLine(Printed(DeploymentCellsOf(e), e.gaps), e) && DeploymentLayout(header)
    ensures RowSays(Workloads, header, Printed(DeploymentCellsOf(e), e.gaps),
                    Tally(e.desired, e.available, [], []))
  {
    NumberCell(e.desired);
    NumberCell(e.current);
    NumberCell(e.upToDate);
    NumberCell(e.available);
    FilledCells(DeploymentCellsOf(e), e.gaps);
  }

  lemma DeploymentRowsReadBack(t: Table, header: seq<string>, es: seq<Deployment>)
    requires Titled(t, header) && |t.lines| == |es| + 1
    requires forall i :: 0 <= i < |es| ==> DeploymentLine(t.lines[i + 1], es[i])
    requires WorkloadHeader(header) && DeploymentLayout(header)
    ensures ValidReport([t]) && ReportRows([t]) == DeploymentTallies(es)
  {
    forall i | 0 <= i < |es|
      ensures RowSays(Workloads, header, t.lines[i + 1], DeploymentTallies(es)[i])
    {
      assert DeploymentLine(t.lines[i + 1], es[i]);
      DeploymentRowSays(header, es[i]);
    }
    TableReadsBack(Workloads, t, header, DeploymentTallies(es));
  }

  /** A printed table of any number of deployments says each one's desired and available nodes. */
  lemma DeploymentsReadBack(t: Table, es: seq<Deployment>)
    requires ListsDeployments(t, es)
    ensures ValidReport([t]) && ReportRows([t]) == DeploymentTallies(es)
    ensures ReadSection(ScanLines(FormatResources(PrintReport([t])))) == Return(Sum(DeploymentTallies(es)))
  {
    DeploymentHeaderIsRead();
    DeploymentRowsReadBack(t, DEPLOYMENT_HEADER, es);
    ReportReadsBack([t]);
  }

  // ---------- stateful sets ----------

  /** A stateful set's row; its counts are any words. */
  datatype StatefulSet = StatefulSet(name: string, desired: string, current: string, age: string, gaps: seq<nat>)

  function StatefulSetCells(e: StatefulSet): (cells: seq<string>)
    ensures |cells| == 4
  {
    [e.name, e.desired, e.current, e.age]
  }

  predicate StatefulSetLine(p: Printed, e: StatefulSet) {
    && p == Printed(StatefulSetCells(e), e.gaps) && Printable(p.cells, p.gaps) && Plain(p.cells)
    && e.name != "" && Word(e.desired) && Word(e.current) && e.age != ""
  }

  predicate ListsStatefulSets(t: Table, es: seq<StatefulSet>) {
    && Titled(t, STATEFUL_SET_HEADER) && |t.lines| == |es| + 1
    && forall i :: 0 <= i < |es| ==> StatefulSetLine(t.lines[i + 1], es[i])
  }

  function StatefulSetTallies(es: seq<StatefulSet>): (r: seq<Tally>)
    ensures |r| == |es|
  {
    seq(|es|, i requires 0 <= i < |es| => Tally(NumberOr(es[i].desired, 0), NumberOr(es[i].current, 0), [], []))
  }

  lemma StatefulSetRowSays(header: seq<string>, e: StatefulSet)
    requires StatefulSetLine(Printed(StatefulSetCells(e), e.gaps), e)
    requires ColumnOf(header, DESIRED) == 1 && ColumnOf(header, CURRENT) == 2 && !Has(header, AVAILABLE)
    ensures RowSays(Workloads, header, Printed(StatefulSetCells(e), e.gaps),
                    Tally(NumberOr(e.desired, 0), NumberOr(e.current, 0), [], []))
  {
    FilledCells(StatefulSetCells(e), e.gaps);
    FirstWordOfWord(e.desired);
    FirstWordOfWord(e.current);
  }

  lemma StatefulSetRowsReadBack(t: Table, header: seq<string>, es: seq<StatefulSet>)
    requires Titled(t, header) && |t.lines| == |es| + 1 && WorkloadHeader(header)
    requires forall i :: 0 <= i < |es| ==> StatefulSetLine(t.lines[i + 1], es[i])
    requires ColumnOf(header, DESIRED) == 1 && ColumnOf(header, CURRENT) == 2 && !Has(header, AVAILABLE)
    ensures ValidReport([t]) && ReportRows([t]) == StatefulSetTallies(es)
  {
    forall i | 0 <= i < |es|
      ensures RowSays(Workloads, header, t.lines[i + 1], StatefulSetTallies(es)[i])
    {
      assert StatefulSetLine(t.lines[i + 1], es[i]);
      StatefulSetRowSays(header, es[i]);
    }
    TableReadsBack(Workloads, t, header, StatefulSetTallies(es));
  }

  /** A printed table of any number of stateful sets, which has no AVAILABLE column, says each one's desired
      nodes and counts the current ones as available; a count that is no number is 0. */
  lemma StatefulSetsReadBack(t: Table, es: seq<StatefulSet>)
    requires ListsStatefulSets(t, es)
    ensures ValidReport([t]) && |ReportRows([t])| == |es|
    ensures forall i :: 0 <= i < |es| ==>
              var row := ReportRows([t])[i];
              && Counts(es[i].desired, 0, row.desired) && Counts(es[i].current, 0, row.available)
              && row.services == [] && row.ingresses == []
    ensures ReadSection(ScanLines(FormatResources(PrintReport([t])))) == Return(Sum(ReportRows([t])))
  {
    StatefulSetHeaderIsRead();
    StatefulSetRowsReadBack(t, STATEFUL_SET_HEADER, es);
    ReportReadsBack([t]);
    forall i | 0 <= i < |es|
      ensures Counts(es[i].desired, 0, ReportRows([t])[i].desired)
      ensures Counts(es[i].current, 0, ReportRows([t])[i].available)
    {
      NumberOrCounts(es[i].desired, 0);
      NumberOrCounts(es[i].current, 0);
    }
  }

  // ---------- rows that certainly print ----------

  /** A row without these three capitals is no header of any kind. */
  lemma PlainWithout(row: seq<string>)
    requires LacksBefore(row, |row|, 'R') && LacksBefore(row, |row|, 'H') && LacksBefore(row, |row|, 'Y')
    ensures Plain(row)
  {
    Absent(row, DESIRED, 'R');
    Absent(row, INGRESS_HOSTS, 'H');
    Absent(row, TYPE, 'Y');
  }

  /** A text for a name, an address or an age: tidy, and without the three capitals. */
  predicate Ordinary(text: string) {
    Tidy(text) && 'R' !in text && 'H' !in text && 'Y' !in text
  }

  predicate OrdinaryRow(row: seq<string>, gaps: seq<nat>) {
    && |row| == |gaps| + 1
    && (forall k :: 0 <= k < |row| ==> Ordinary(row[k]))
    && (forall k :: 0 <= k < |gaps| ==> gaps[k] >= 2)
  }

  lemma OrdinaryRowPrints(row: seq<string>, gaps: seq<nat>)
    requires OrdinaryRow(row, gaps)
    ensures Printable(row, gaps) && Plain(row)
  {
    PlainWithout(row);
  }

  /** Words of letters, digits and punctuation without the three capitals. */
  predicate OrdinaryChars(text: string) {
    forall i :: 0 <= i < |text| ==> text[i] > ' ' && text[i] != 'R' && text[i] != 'H' && text[i] != 'Y'
  }

  lemma OrdinaryWord(text: string)
    requires text != "" && OrdinaryChars(text)
    ensures Ordinary(text) && Word(text)
  {
  }

  const WEB := "web"
  const SECONDS := "5s"

  /** A name and an age for sample rows. */
  lemma SampleTextsAreOrdinary()
    ensures Ordinary(WEB) && Word(WEB) && Ordinary(SECONDS)
  {
    OrdinaryWord(WEB);
    OrdinaryWord(SECONDS);
  }

  lemma OrdinaryTitle(title: string)
    requires title != "" && OrdinaryChars(title)
    ensures Ordinary(RESOURCE_PREFIX + title)
  {
    var s := RESOURCE_PREFIX + title;
    assert s[0] == '=' && s[3] == ' ' && s[4] == title[0];
    assert forall i :: 0 <= i < |s| && i != 3 ==> s[i] > ' ' && s[i] != 'R' && s[i] != 'H' && s[i] != 'Y';
  }

  lemma OrdinaryNumber(n: Int)
    ensures Ordinary(Itoa(n))
  {
    ItoaAlphabet(n);
    NumberCell(n);
  }

  /** A title line as Tiller prints it. */
  lemma TitlePrints(title: string)
    requires Ordinary(RESOURCE_PREFIX + title)
    ensures RowLine(RESOURCE_PREFIX + title)
  {
    IndexNeedsEveryChar(RESOURCE_PREFIX + title, DESIRED, 'R');
    IndexNeedsEveryChar(RESOURCE_PREFIX + title, INGRESS_HOSTS, 'H');
    IndexNeedsEveryChar(RESOURCE_PREFIX + title, TYPE, 'Y');
  }

  /** A row for a deployment with any numbers. */
  lemma DeploymentPrints(e: Deployment)
    requires Ordinary(e.name) && Ordinary(e.age)
    requires |e.gaps| == 5 && forall k :: 0 <= k < 5 ==> e.gaps[k] >= 2
    ensures DeploymentLine(Printed(DeploymentCellsOf(e), e.gaps), e)
  {
    OrdinaryNumber(e.desired);
    OrdinaryNumber(e.current);
    OrdinaryNumber(e.upToDate);
    OrdinaryNumber(e.available);
    OrdinaryRowPrints(DeploymentCellsOf(e), e.gaps);
  }

  const WIDE: seq<nat> := [2, 2, 2, 2, 2]

  function DeploymentTable(title: string, es: seq<Deployment>): Table {
    Table(title, [Printed(DEPLOYMENT_HEADER, WIDE)]
                 + seq(|es|, i requires 0 <= i < |es| => Printed(DeploymentCellsOf(es[i]), es[i].gaps)))
  }

  lemma DeploymentTablePrints(title: string, es: seq<Deployment>)
    requires Ordinary(RESOURCE_PREFIX + title)
    requires forall i :: 0 <= i < |es| ==> DeploymentLine(Printed(DeploymentCellsOf(es[i]), es[i].gaps), es[i])
    ensures ListsDeployments(DeploymentTable(title, es), es)
  {
    TitlePrints(title);
    NamesAreTidy();
    CountsAreTidy();
  }

  lemma {:induction false} OrdinaryJoin(parts: seq<string>, c: char)
    requires OrdinaryChars([c]) && forall i :: 0 <= i < |parts| ==> OrdinaryChars(parts[i])
    ensures OrdinaryChars(Join(parts, c))
  {
    if |parts| > 1 {
      OrdinaryJoin(parts[1..], c);
      assert [c][0] == c;
    }
  }

  lemma OrdinaryEntry(e: Ports.Entry)
    requires OrdinaryChars(e.protocol)
    ensures OrdinaryChars(Ports.PrintEntry(e))
  {
    ItoaAlphabet(e.cluster);
    if e.node.Some? {
      ItoaAlphabet(e.node.value);
    }
  }

  predicate OrdinaryPorts(ports: seq<Ports.Entry>) {
    ports != [] && Ports.ValidEntries(ports) && forall i :: 0 <= i < |ports| ==> OrdinaryChars(ports[i].protocol)
  }

  lemma PortsPrint(ports: seq<Ports.Entry>)
    requires OrdinaryPorts(ports)
    ensures Ordinary(Ports.PrintPorts(ports)) && Word(Ports.PrintPorts(ports))
  {
    var parts := Ports.PrintEntries(ports);
    forall i | 0 <= i < |parts|
      ensures OrdinaryChars(parts[i])
    {
      OrdinaryEntry(ports[i]);
    }
    OrdinaryJoin(parts, ',');
    ItoaAlphabet(ports[0].cluster);
    assert parts[0] != "";
    OrdinaryWord(Ports.PrintPorts(ports));
  }

  /** A row for a service with any ports. */
  lemma ServicePrints(e: ServiceEntry)
    requires Ordinary(e.name) && Ordinary(e.kind) && Ordinary(e.externalIP)
    requires Word(e.name) && Word(e.kind) && Word(e.externalIP)
    requires Ordinary(e.clusterIP) && Ordinary(e.age) && OrdinaryPorts(e.ports)
    requires |e.gaps| == 5 && forall k :: 0 <= k < 5 ==> e.gaps[k] >= 2
    ensures ServiceLine(Printed(ServiceCellsOf(e), e.gaps), e)
  {
    PortsPrint(e.ports);
    OrdinaryRowPrints(ServiceCellsOf(e), e.gaps);
  }

  function ServiceTable(title: string, es: seq<ServiceEntry>): Table {
    Table(title, [Printed(SERVICE_HEADER, WIDE)]
                 + seq(|es|, i requires 0 <= i < |es| => Printed(ServiceCellsOf(es[i]), es[i].gaps)))
  }

  lemma ServiceTablePrints(title: string, es: seq<ServiceEntry>)
    requires Ordinary(RESOURCE_PREFIX + title)
    requires forall i :: 0 <= i < |es| ==> ServiceLine(Printed(ServiceCellsOf(es[i]), es[i].gaps), es[i])
    ensures ListsServices(ServiceTable(title, es), es)
  {
    TitlePrints(title);
    NamesAreTidy();
    AddressesAreTidy();
  }
}
