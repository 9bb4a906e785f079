/** Node counts over a whole report, and what they say about availability. */
module NodeCounts {
  import opened Decimal
  import opened StatusReport
  import opened KubectlTables
  import opened Polling
  import opened Reports

  function TotalDesired(tallies: seq<Tally>): int {
    if tallies == [] then 0 else tallies[0].desired + TotalDesired(tallies[1..])
  }

  function TotalAvailable(tallies: seq<Tally>): int {
    if tallies == [] then 0 else tallies[0].available + TotalAvailable(tallies[1..])
  }

  /** Counting wraps around: the counts differ from the true sums by a multiple of the word size. */
  lemma {:induction false} CountsModuloWord(tallies: seq<Tally>) returns (d: int, a: int)
    ensures Sum(tallies).desired == TotalDesired(tallies) + d * WORD
    ensures Sum(tallies).available == TotalAvailable(tallies) + a * WORD
  {
    d, a := 0, 0;
    if tallies != [] {
      d, a := CountsModuloWord(tallies[1..]);
      var head, tail := tallies[0], Sum(tallies[1..]);
      var desired, available := head.desired + tail.desired, head.available + tail.available;
      d := if desired > MAX_INT then d - 1 else if desired < MIN_INT then d + 1 else d;
      a := if available > MAX_INT then a - 1 else if available < MIN_INT then a + 1 else a;
    }
  }

  /** The counts are the exact sums over all rows if and only if those fit the integer type. */
  lemma CountsAreExactSums(tallies: seq<Tally>)
    ensures Sum(tallies).desired == TotalDesired(tallies) <==> IsInt(TotalDesired(tallies))
    ensures Sum(tallies).available == TotalAvailable(tallies) <==> IsInt(TotalAvailable(tallies))
  {
    var d, a := CountsModuloWord(tallies);
  }

  lemma {:induction false} TotalsCompare(tallies: seq<Tally>)
    requires forall t :: t in tallies ==> t.available <= t.desired
    ensures TotalAvailable(tallies) <= TotalDesired(tallies)
    ensures TotalAvailable(tallies) == TotalDesired(tallies) <==>
            forall t :: t in tallies ==> t.available >= t.desired
  {
    if tallies != [] {
      TotalsCompare(tallies[1..]);
      assert forall t :: t in tallies <==> t == tallies[0] || t in tallies[1..];
    }
  }

  /** No row reports more available than desired nodes, and the totals fit. */
  predicate Bounded(tallies: seq<Tally>) {
    && (forall t :: t in tallies ==> t.available <= t.desired)
    && IsInt(TotalDesired(tallies)) && IsInt(TotalAvailable(tallies))
  }

  predicate AllAvailable(tallies: seq<Tally>) {
    forall t :: t in tallies ==> t.available >= t.desired
  }

  /** If no row reports more available than desired nodes, the counts compare as every single row
      does. */
  lemma AvailableIffEveryRowIs(tallies: seq<Tally>)
    requires Bounded(tallies)
    ensures Sum(tallies).available >= Sum(tallies).desired <==> AllAvailable(tallies)
  {
    CountsAreExactSums(tallies);
    TotalsCompare(tallies);
  }

  /** The status of a printed report: its node counts are the sums over all rows of all tables, and under
      that bound the release is available exactly when every single row is. */
  lemma ReleaseAvailableIffRowsAre(ts: seq<Table>, name: string, namespace: string, lastDeployment: int,
                                   timeout: int, now: int, code: Code)
    requires ValidReport(ts)
    ensures var r, rows := StatusOf(name, namespace, lastDeployment, timeout, now, code, PrintReport(ts)),
                           ReportRows(ts);
            && r.Return?
            && (IsInt(TotalDesired(rows)) ==> r.value.desiredNodes == TotalDesired(rows))
            && (IsInt(TotalAvailable(rows)) ==> r.value.availableNodes == TotalAvailable(rows))
            && (Bounded(rows) ==> (AsWritten(r.value).isAvailable <==> AllAvailable(rows)))
  {
    PrintedStatus(ts, name, namespace, lastDeployment, timeout, now, code);
    CountsAreExactSums(ReportRows(ts));
    if Bounded(ReportRows(ts)) {
      AvailableIffEveryRowIs(ReportRows(ts));
    }
  }

  // ---------- the order of the tables ----------

  predicate SameCounts(a: Tally, b: Tally) {
    a.desired == b.desired && a.available == b.available
  }

  /** What several things say together. */
  function Total<T>(xs: seq<T>, f: T -> Tally): Tally {
    if xs == [] then NOTHING else Add(f(xs[0]), Total(xs[1..], f))
  }

  lemma {:induction false} TotalAcross<T>(a: seq<T>, b: seq<T>, f: T -> Tally)
    ensures Total(a + b, f) == Add(Total(a, f), Total(b, f))
  {
    if a == [] {
      assert a + b == b;
      AddNothing(Total(b, f));
    } else {
      assert (a + b)[1..] == a[1..] + b;
      TotalAcross(a[1..], b, f);
      AddAssociates(f(a[0]), Total(a[1..], f), Total(b, f));
    }
  }

  lemma AddCounts(a: Tally, b: Tally, c: Tally)
    ensures SameCounts(Add(a, Add(b, c)), Add(b, Add(a, c)))
  {
    PlusAssociates(a.desired, b.desired, c.desired);
    PlusAssociates(b.desired, a.desired, c.desired);
    PlusAssociates(a.available, b.available, c.available);
    PlusAssociates(b.available, a.available, c.available);
  }

  /** One of them may move to the front. */
  lemma TotalFirst<T>(a: seq<T>, x: T, b: seq<T>, f: T -> Tally)
    ensures SameCounts(Total(a + [x] + b, f), Add(f(x), Total(a + b, f)))
  {
    assert a + [x] + b == a + ([x] + b) && ([x] + b)[1..] == b;
    TotalAcross(a, [x] + b, f);
    TotalAcross(a, b, f);
    AddCounts(Total(a, f), f(x), Total(b, f));
  }

  lemma WithoutFirst<T>(rest: seq<T>, x: T, a: seq<T>, b: seq<T>)
    requires multiset([x] + rest) == multiset(a + [x] + b)
    ensures multiset(rest) == multiset(a + b)
  {
    assert multiset(rest) == multiset([x] + rest) - multiset{x};
    assert multiset(a + b) == multiset(a + [x] + b) - multiset{x};
  }

  lemma {:induction false} TotalOfPermutation<T>(xs: seq<T>, ys: seq<T>, f: T -> Tally)
    requires multiset(xs) == multiset(ys)
    ensures SameCounts(Total(xs, f), Total(ys, f))
    decreases |xs|
  {
    if xs == [] {
      assert |ys| == |multiset(ys)| == 0;
    } else {
      assert xs[0] in multiset(ys);
      var i :| 0 <= i < |ys| && ys[i] == xs[0];
      var a, b := ys[..i], ys[i + 1..];
      assert ys == a + [xs[0]] + b && xs == [xs[0]] + xs[1..];
      WithoutFirst(xs[1..], xs[0], a, b);
      TotalOfPermutation(xs[1..], a + b, f);
      TotalFirst(a, xs[0], b, f);
    }
  }

  function TableTally(t: Table): Tally {
    if WellPrinted(t) && ValidTable(GridOf(t)) then Sum(TableRows(GridOf(t))) else NOTHING
  }

  lemma {:induction false} ReportTotal(ts: seq<Table>)
    requires ValidReport(ts)
    ensures Sum(ReportRows(ts)) == Total(ts, TableTally)
  {
    if ts != [] {
      ReportTotal(ts[1..]);
      SumAcross(TableRows(GridOf(ts[0])), ReportRows(ts[1..]));
    }
  }

  lemma PermutationIsValid(ts: seq<Table>, us: seq<Table>)
    requires ValidReport(ts) && multiset(ts) == multiset(us)
    ensures ValidReport(us)
  {
    forall u | u in us
      ensures u in ts
    {
      assert u in multiset(us);
    }
  }

  /** Tiller prints its tables in an arbitrary order; the node counts do not depend on it. */
  lemma CountsOfPermutation(ts: seq<Table>, us: seq<Table>)
    requires ValidReport(ts) && multiset(ts) == multiset(us)
    ensures ValidReport(us) && SameCounts(Sum(ReportRows(ts)), Sum(ReportRows(us)))
  {
    PermutationIsValid(ts, us);
    ReportTotal(ts);
    ReportTotal(us);
    TotalOfPermutation(ts, us, TableTally);
  }

  /** So the answer to a poll does not depend on it either. */
  lemma PollOfPermutation(ts: seq<Table>, us: seq<Table>, name: string, namespace: string, lastDeployment: int,
                          timeout: int, now: int, code: Code)
    requires ValidReport(ts) && multiset(ts) == multiset(us)
    ensures ValidReport(us)
    ensures var a := StatusOf(name, namespace, lastDeployment, timeout, now, code, PrintReport(ts));
            var b := StatusOf(name, namespace, lastDeployment, timeout, now, code, PrintReport(us));
            a.Return? && b.Return? && Poll(AsWritten(a.value)) == Poll(AsWritten(b.value))
  {
    CountsOfPermutation(ts, us);
    PrintedStatus(ts, name, namespace, lastDeployment, timeout, now, code);
    PrintedStatus(us, name, namespace, lastDeployment, timeout, now, code);
  }

  // ---------- reports that show both flaws ----------

  const TITLE := "v1beta1/Deployment"

  /** Any node counts can be printed. */
  lemma CountsPrint(counts: seq<(Int, Int)>) returns (t: Table)
    ensures ValidReport([t])
    ensures ReportRows([t]) == seq(|counts|, i requires 0 <= i < |counts| =>
                                               Tally(counts[i].0, counts[i].1, [], []))
  {
    var es := seq(|counts|, i requires 0 <= i < |counts| =>
                    Deployment(WEB, counts[i].0, counts[i].0, counts[i].0, counts[i].1, SECONDS, WIDE));
    SampleTextsAreOrdinary();
    OrdinaryTitle(TITLE);
    forall i | 0 <= i < |es|
      ensures DeploymentLine(Printed(DeploymentCellsOf(es[i]), es[i].gaps), es[i])
    {
      DeploymentPrints(es[i]);
    }
    DeploymentTablePrints(TITLE, es);
    t := DeploymentTable(TITLE, es);
    DeploymentsReadBack(t, es);
  }

  /** Without the bound a surplus in one row hides a shortage in another: there is a printed report whose
      release counts as available although a row is not. */
  lemma SurplusHidesShortage(name: string, namespace: string, lastDeployment: int, timeout: int, now: int,
                             code: Code) returns (t: Table)
    ensures ValidReport([t]) && !AllAvailable(ReportRows([t]))
    ensures var r := StatusOf(name, namespace, lastDeployment, timeout, now, code, PrintReport([t]));
            r.Return? && AsWritten(r.value).isAvailable
  {
    t := CountsPrint([(1, 2), (1, 0)]);
    var rows := ReportRows([t]);
    assert rows == [Tally(1, 2, [], []), Tally(1, 0, [], [])];
    assert rows[1] in rows;
    TwoRows(rows[0], rows[1]);
    ReleaseAvailableIffRowsAre([t], name, namespace, lastDeployment, timeout, now, code);
  }

  lemma TwoRows(a: Tally, b: Tally)
    ensures TotalDesired([a, b]) == a.desired + b.desired
    ensures TotalAvailable([a, b]) == a.available + b.available
  {
    assert [a, b][1..] == [b] && [b][1..] == [];
    assert TotalDesired([b]) == b.desired && TotalAvailable([b]) == b.available;
  }

  /** A deployed release with one of its nodes missing, before the deadline, is reported as succeeded; it
      should be in progress. */
  lemma MissingNodeReportedAsSuccess(name: string, namespace: string, lastDeployment: int, timeout: int, now: int)
      returns (resources: string)
    requires now <= lastDeployment + timeout
    ensures var r := StatusOf(name, namespace, lastDeployment, timeout, now, Deployed, resources);
            r.Return? && Poll(AsWritten(r.value)) == Succeeded && Poll(AsIntended(r.value)) == InProgress
  {
    var t := CountsPrint([(1, 0)]);
    resources := PrintReport([t]);
    assert ReportRows([t]) == [Tally(1, 0, [], [])];
    OneRow(Tally(1, 0, [], []));
    PrintedStatus([t], name, namespace, lastDeployment, timeout, now, Deployed);
  }

  lemma OneRow(t: Tally)
    ensures Sum([t]) == t
  {
    assert [t][1..] == [];
    AddNothing(t);
  }
}
