/** The PORT(S) cell of a service row: a comma-separated list of `cluster/PROTO` and
    `cluster:node/PROTO`. */
module Ports {
  import opened Outcomes
  import opened Text
  import opened Decimal

  const SEPARATORS: set<char> := {':', '/'}

  datatype PortMaps = PortMaps(cluster: map<int, int>, node: map<int, int>)

  /** What one list entry adds. Entries with unreadable numbers or another shape add nothing. */
  function AddPair(maps: PortMaps, pair: string): PortMaps {
    var fields := FieldsBy(pair, SEPARATORS);
    if |fields| == 2 && Atoi(fields[0]).Some? then
      var c := Atoi(fields[0]).value;
      maps.(cluster := maps.cluster[c := c])
    else if |fields| == 3 && Atoi(fields[0]).Some? && Atoi(fields[1]).Some? then
      var c, n := Atoi(fields[0]).value, Atoi(fields[1]).value;
      PortMaps(maps.cluster[c := c], maps.node[c := n])
    else
      maps
  }

  function PortsOf(pairs: seq<string>): PortMaps {
    if pairs == [] then
      PortMaps(map[], map[])
    else
      AddPair(PortsOf(pairs[..|pairs| - 1]), pairs[|pairs| - 1])
  }

  method ParsePortList(cell: string) returns (clusterPorts: map<int, int>, nodePorts: map<int, int>)
    ensures PortMaps(clusterPorts, nodePorts) == PortsOf(Split(cell, ','))
  {
    clusterPorts, nodePorts := map[], map[];
    var pairs := Split(cell, ',');
    for i := 0 to |pairs|
      invariant PortMaps(clusterPorts, nodePorts) == PortsOf(pairs[..i])
    {
      assert pairs[..i + 1][..i] == pairs[..i];
      var portFields := FieldsBy(pairs[i], SEPARATORS);
      if |portFields| == 2 {
        var clusterPort := Atoi(portFields[0]);
        if clusterPort.Some? {
          clusterPorts := clusterPorts[clusterPort.value := clusterPort.value];
        }
      }
      if |portFields| == 3 {
        var nodePort := Atoi(portFields[1]);
        var clusterPort := Atoi(portFields[0]);
        if nodePort.Some? && clusterPort.Some? {
          nodePorts := nodePorts[clusterPort.value := nodePort.value];
          clusterPorts := clusterPorts[clusterPort.value := clusterPort.value];
        }
      }
    }
    assert pairs[..|pairs|] == pairs;
  }

  // ---------- the invariant of parsed ports ----------

  /** Cluster ports map each key to itself, and only cluster ports have node ports. */
  predicate WellPorted(maps: PortMaps) {
    && (forall c :: c in maps.cluster ==> maps.cluster[c] == c)
    && maps.node.Keys <= maps.cluster.Keys
  }

  /** Whatever the cell holds, the parsed maps are well ported. */
  lemma {:induction false} ParsedPortsWellPorted(pairs: seq<string>)
    ensures WellPorted(PortsOf(pairs))
  {
    if pairs != [] {
      ParsedPortsWellPorted(pairs[..|pairs| - 1]);
    }
  }

  // ---------- entries of any shape ----------

  /** Texts without separators. */
  predicate Parts(parts: seq<string>) {
    forall i :: 0 <= i < |parts| ==> parts[i] != "" && forall c :: c in parts[i] ==> c !in SEPARATORS
  }

  lemma {:induction false} FieldsOfParts(parts: seq<string>, c: char)
    requires Parts(parts) && c in SEPARATORS
    ensures FieldsBy(Join(parts, c), SEPARATORS) == parts
  {
    if |parts| == 1 {
      FieldsOfWord(parts[0], SEPARATORS);
    } else if parts != [] {
      FieldsOfParts(parts[1..], c);
      FieldsOfWord(parts[0], SEPARATORS);
      FieldsAcross(parts[0], c, Join(parts[1..], c), SEPARATORS);
    }
  }

  /** An entry of two parts adds a cluster port if its first part is a number, one of three parts adds a
      cluster and a node port if its first two parts are numbers, and any other entry adds nothing. */
  lemma EntryAdds(maps: PortMaps, parts: seq<string>, sep: char, c: Int, n: Int)
    requires Parts(parts) && sep in SEPARATORS
    ensures var after := AddPair(maps, Join(parts, sep));
            && (|parts| == 2 && Numeral(parts[0], c) ==> after == PortMaps(maps.cluster[c := c], maps.node))
            && (|parts| == 3 && Numeral(parts[0], c) && Numeral(parts[1], n) ==>
                  after == PortMaps(maps.cluster[c := c], maps.node[c := n]))
            && (|parts| != 2 && |parts| != 3 ==> after == maps)
            && (|parts| >= 2 && NoNumber(parts[0]) ==> after == maps)
            && (|parts| == 3 && NoNumber(parts[1]) ==> after == maps)
  {
    FieldsOfParts(parts, sep);
    if |parts| >= 2 {
      AtoiExactly(parts[0], c);
      AtoiExactly(parts[1], n);
      NoNumberExactly(parts[0]);
      NoNumberExactly(parts[1]);
    }
  }

  // ---------- round trip ----------

  datatype Entry = Entry(cluster: int, node: Option<int>, protocol: string)

  predicate ValidEntry(e: Entry) {
    && IsInt(e.cluster)
    && (e.node.Some? ==> IsInt(e.node.value))
    && e.protocol != "" && (forall c :: c in e.protocol ==> c !in SEPARATORS && c != ',')
  }

  predicate ValidEntries(entries: seq<Entry>) {
    forall i :: 0 <= i < |entries| ==> ValidEntry(entries[i])
  }

  function PrintEntry(e: Entry): string {
    if e.node.Some? then
      Itoa(e.cluster) + [':'] + (Itoa(e.node.value) + ['/'] + e.protocol)
    else
      Itoa(e.cluster) + ['/'] + e.protocol
  }

  function PrintEntries(entries: seq<Entry>): (r: seq<string>)
    ensures |r| == |entries|
  {
    seq(|entries|, i requires 0 <= i < |entries| => PrintEntry(entries[i]))
  }

  function PrintPorts(entries: seq<Entry>): string {
    Join(PrintEntries(entries), ',')
  }

  /** The node port of the last entry for `c` that has one. */
  function LastNodePort(entries: seq<Entry>, c: int): Option<int> {
    if entries == [] then
      None
    else
      var e := entries[|entries| - 1];
      if e.cluster == c && e.node.Some? then e.node else LastNodePort(entries[..|entries| - 1], c)
  }

  function ClusterPorts(entries: seq<Entry>): set<int> {
    set e | e in entries :: e.cluster
  }

  /** What a printed list must be read back as. */
  ghost predicate Describes(entries: seq<Entry>, maps: PortMaps) {
    && maps.cluster.Keys == ClusterPorts(entries)
    && (forall c :: c in maps.cluster ==> maps.cluster[c] == c)
    && (forall c :: c in maps.node <==> LastNodePort(entries, c).Some?)
    && (forall c :: c in maps.node ==> LastNodePort(entries, c) == Some(maps.node[c]))
  }

  lemma FieldsOfNumber(n: int, c: char, rest: string)
    requires c in SEPARATORS
    ensures FieldsBy(Itoa(n) + [c] + rest, SEPARATORS) == [Itoa(n)] + FieldsBy(rest, SEPARATORS)
    ensures ',' !in Itoa(n)
  {
    ItoaAlphabet(n);
    FieldsOfWord(Itoa(n), SEPARATORS);
    FieldsAcross(Itoa(n), c, rest, SEPARATORS);
  }

  lemma FieldsOfEntry(e: Entry)
    requires ValidEntry(e)
    ensures FieldsBy(PrintEntry(e), SEPARATORS)
            == [Itoa(e.cluster)] + (if e.node.Some? then [Itoa(e.node.value)] else []) + [e.protocol]
    ensures ',' !in PrintEntry(e)
  {
    FieldsOfWord(e.protocol, SEPARATORS);
    if e.node.Some? {
      FieldsOfNumber(e.node.value, '/', e.protocol);
      FieldsOfNumber(e.cluster, ':', Itoa(e.node.value) + ['/'] + e.protocol);
    } else {
      FieldsOfNumber(e.cluster, '/', e.protocol);
    }
  }

  lemma AddPrinted(maps: PortMaps, e: Entry)
    requires ValidEntry(e)
    ensures AddPair(maps, PrintEntry(e)) ==
            PortMaps(maps.cluster[e.cluster := e.cluster],
                     if e.node.Some? then maps.node[e.cluster := e.node.value] else maps.node)
  {
    FieldsOfEntry(e);
    AtoiItoa(e.cluster);
    if e.node.Some? {
      AtoiItoa(e.node.value);
    }
  }

  lemma PortsOfPrinted(init: seq<Entry>, e: Entry)
    requires ValidEntry(e)
    ensures var maps := PortsOf(PrintEntries(init));
            PortsOf(PrintEntries(init + [e])) ==
            PortMaps(maps.cluster[e.cluster := e.cluster],
                     if e.node.Some? then maps.node[e.cluster := e.node.value] else maps.node)
  {
    var pairs := PrintEntries(init + [e]);
    assert pairs[..|pairs| - 1] == PrintEntries(init);
    AddPrinted(PortsOf(PrintEntries(init)), e);
  }

  lemma DescribesStep(init: seq<Entry>, e: Entry, maps: PortMaps)
    requires Describes(init, maps)
    ensures Describes(init + [e],
                      PortMaps(maps.cluster[e.cluster := e.cluster],
                               if e.node.Some? then maps.node[e.cluster := e.node.value] else maps.node))
  {
    assert (init + [e])[..|init|] == init;
    assert ClusterPorts(init + [e]) == ClusterPorts(init) + {e.cluster};
  }

  lemma ReadPrintedStep(init: seq<Entry>, e: Entry)
    requires ValidEntry(e) && Describes(init, PortsOf(PrintEntries(init)))
    ensures Describes(init + [e], PortsOf(PrintEntries(init + [e])))
  {
    PortsOfPrinted(init, e);
    DescribesStep(init, e, PortsOf(PrintEntries(init)));
  }

  lemma {:induction false} ReadPrinted(entries: seq<Entry>)
    requires ValidEntries(entries)
    ensures Describes(entries, PortsOf(PrintEntries(entries)))
  {
    if entries != [] {
      var init, e := entries[..|entries| - 1], entries[|entries| - 1];
      assert init + [e] == entries;
      ReadPrinted(init);
      ReadPrintedStep(init, e);
    }
  }

  /** Printing a non-empty port list and running the parser recovers it. */
  lemma PortListRoundTrip(entries: seq<Entry>)
    requires entries != []
    requires ValidEntries(entries)
    ensures Describes(entries, PortsOf(Split(PrintPorts(entries), ',')))
  {
    forall p | p in PrintEntries(entries)
      ensures ',' !in p
    {
      var i :| 0 <= i < |entries| && p == PrintEntry(entries[i]);
      FieldsOfEntry(entries[i]);
    }
    SplitJoin(PrintEntries(entries), ',');
    ReadPrinted(entries);
  }
}
