/** Tiller, the trusted part: atomic requests on a store of release histories, any of which may fail. */
module Tiller {
  import opened Text
  import opened StatusReport
  import opened Decimal

  datatype Revision = Revision(code: Code, namespace: string, values: map<string, string>)

  /** The revisions stored under one name, oldest first. */
  type History = h: seq<Revision> | h != [] witness [Revision(Unknown, "", map[])]

  type Store = map<string, History>

  /** How a request fails: before it has any effect, when it got only so far, or after it took effect. */
  datatype Fault =
    | NoFault
    | Before(message: string)
    | Midway(progress: nat, message: string)
    | ReplyLost(message: string)

  /** `BadName` is the refusal of a name outside the pattern; its fixed message does not say "not found". */
  datatype Reply = Granted(revision: Revision) | Refused(message: string) | BadName

  const NOT_FOUND := "not found"

  function Missing(name: string): string {
    "release: \"" + name + "\" " + NOT_FOUND
  }

  const IN_USE := "cannot re-use a name that is still in use"
  const NOT_DEPLOYED := "no deployed releases"

  /** The reply says that there is no such release. */
  predicate SaysMissing(r: Reply) {
    r.Refused? && Contains(r.message, NOT_FOUND)
  }

  lemma MissingSaysMissing(name: string)
    ensures SaysMissing(Refused(Missing(name)))
  {
    ContainsInfix("release: \"" + name + "\" ", NOT_FOUND, "");
    assert "release: \"" + name + "\" " + NOT_FOUND + "" == Missing(name);
  }

  const MAX_NAME := 53

  predicate Alphanumeric(c: char) {
    'a' <= c <= 'z' || 'A' <= c <= 'Z' || '0' <= c <= '9'
  }

  /** The pattern for release names, which every request but an installation checks. */
  predicate ValidName(name: string) {
    && 0 < |name| <= MAX_NAME && Alphanumeric(name[0]) && Alphanumeric(name[|name| - 1])
    && forall i :: 0 <= i < |name| ==> Alphanumeric(name[i]) || name[i] in {'-', '_', '.'}
  }

  predicate LowerOrDigit(c: char) {
    'a' <= c <= 'z' || '0' <= c <= '9'
  }

  /** Revisions are stored as Kubernetes objects named after the release, so the name must consist of
      labels separated by dots: small letters, digits and inner '-'. */
  predicate Storable(name: string) {
    && name != "" && LowerOrDigit(name[0]) && LowerOrDigit(name[|name| - 1])
    && forall i :: 0 <= i < |name| ==> LowerOrDigit(name[i]) || name[i] == '-' || DotBetween(name, i)
  }

  /** A dot with a letter or digit on both sides. */
  predicate DotBetween(name: string, i: int) {
    && 0 < i < |name| - 1 && name[i] == '.'
    && LowerOrDigit(name[i - 1]) && LowerOrDigit(name[i + 1])
  }

  /** The characters of names, written out. */
  lemma NameCharacters(c: char)
    ensures LowerOrDigit(c) <==> c in SMALLS || c in NUMERALS
    ensures Alphanumeric(c) <==> c in SMALLS || c in CAPITALS || c in NUMERALS
  {
    LetterExactly(c);
    NumeralExactly(c);
  }

  lemma StorableIsValid(name: string)
    requires Storable(name) && |name| <= MAX_NAME
    ensures ValidName(name)
  {
  }

  function Last(h: History): Revision {
    h[|h| - 1]
  }

  function WithLast(h: History, code: Code): (r: History)
    ensures |r| == |h|
  {
    h[|h| - 1 := Last(h).(code := code)]
  }

  // ---------- the requests ----------

  function Lookup(store: Store, name: string, fault: Fault): Reply {
    if fault != NoFault then Refused(fault.message)
    else if !ValidName(name) then BadName
    else if name in store then Granted(Last(store[name]))
    else Refused(Missing(name))
  }

  /** A name whose last revision is FAILED or DELETED may be installed again. */
  predicate Live(store: Store, name: string) {
    name in store && Last(store[name]).code !in {Failed, Deleted}
  }

  /** A new revision on top of an old history, which it supersedes. Under a name that cannot be stored
      nothing is recorded, which Tiller only logs. */
  function Installed(store: Store, name: string, revision: Revision): Store {
    if Storable(name) then
      store[name := (if name in store then WithLast(store[name], Superseded) else []) + [revision]]
    else
      store
  }

  function Install(store: Store, name: string, namespace: string, values: map<string, string>, fault: Fault)
    : (Store, Reply)
  {
    if |name| > MAX_NAME || Live(store, name) then
      (store, Refused(IN_USE))
    else
      var deployed := Revision(Deployed, namespace, values);
      match fault
      case NoFault => (Installed(store, name, deployed), Granted(deployed))
      case Before(m) => (store, Refused(m))
      case Midway(progress, m) =>
        var code := if progress == 0 then PendingInstall else Failed;
        (Installed(store, name, deployed.(code := code)), Refused(m))
      case ReplyLost(m) => (Installed(store, name, deployed), Refused(m))
  }

  /** The first revision that is DEPLOYED, or the length. */
  function FirstDeployed(h: seq<Revision>): (i: nat)
    ensures i <= |h| && (i < |h| ==> h[i].code == Deployed)
    ensures forall j :: 0 <= j < i ==> h[j].code != Deployed
  {
    if h == [] || h[0].code == Deployed then 0 else 1 + FirstDeployed(h[1..])
  }

  predicate Upgradable(store: Store, name: string) {
    ValidName(name) && name in store && FirstDeployed(store[name]) < |store[name]|
  }

  /** The revision an upgrade adds: the values are replaced, unless none are given. */
  function Upgraded(h: History, values: map<string, string>): Revision
    requires FirstDeployed(h) < |h|
  {
    var current := h[FirstDeployed(h)];
    Revision(Deployed, current.namespace, if values == map[] then current.values else values)
  }

  function Supersede(h: History): (r: History)
    requires FirstDeployed(h) < |h|
    ensures |r| == |h|
  {
    h[FirstDeployed(h) := h[FirstDeployed(h)].(code := Superseded)]
  }

  /** An upgrade needs a DEPLOYED revision. Half-way the new revision is PENDING_UPGRADE or FAILED above
      the old one, which stays DEPLOYED; only at the very end is the old one superseded. */
  function Upgrade(store: Store, name: string, values: map<string, string>, fault: Fault): (Store, Reply) {
    if !Upgradable(store, name) then
      (store, Refused(NOT_DEPLOYED))
    else
      var h := store[name];
      var next := Upgraded(h, values);
      match fault
      case NoFault => (store[name := Supersede(h) + [next]], Granted(next))
      case Before(m) => (store, Refused(m))
      case Midway(progress, m) =>
        (store[name := if progress == 0 then h + [next.(code := PendingUpgrade)]
                       else if progress == 1 then h + [next.(code := Failed)]
                       else Supersede(h) + [next.(code := PendingUpgrade)]], Refused(m))
      case ReplyLost(m) => (store[name := Supersede(h) + [next]], Refused(m))
  }

  /** The last revision is marked before anything is deleted. */
  function Marked(h: History): (r: History)
    ensures |r| == |h|
  {
    if Last(h).code == Deleted then h else WithLast(h, Deleting)
  }

  /** Deleting purges all revisions, oldest first. */
  function Purge(store: Store, name: string, fault: Fault): (Store, Reply) {
    if !ValidName(name) then
      (store, BadName)
    else if name !in store then
      (store, Refused(Missing(name)))
    else
      match fault
      case NoFault => (store - {name}, Granted(Last(store[name])))
      case Before(m) => (store, Refused(m))
      case Midway(progress, m) =>
        (if progress < |store[name]| then store[name := Marked(store[name])[progress..]] else store - {name},
         Refused(m))
      case ReplyLost(m) => (store - {name}, Refused(m))
  }

  /** The codes a listing asks for. */
  predicate Shown(code: Code) {
    code !in {Deleted, Superseded}
  }

  lemma ShownExactly(code: Code)
    ensures Shown(code) <==>
            || code == Deleting || code == Deployed || code == Failed || code == PendingInstall
            || code == PendingRollback || code == PendingUpgrade || code == Unknown
  {
  }

  /** A listing takes the name as a regular expression, in which a dot stands for any character of the
      line; the other characters of valid names stand for themselves. */
  predicate Meets(c: char, filter: char) {
    c == filter || (filter == '.' && c != '\n')
  }

  /** The text begins with what the filter describes. */
  predicate Fits(m: string, filter: string) {
    filter == "" || (m != "" && Meets(m[0], filter[0]) && Fits(m[1..], filter[1..]))
  }

  predicate Matches(m: string, filter: string) {
    Fits(m, filter) || (m != "" && Matches(m[1..], filter))
  }

  lemma {:induction false} FitsEverywhere(m: string, filter: string)
    ensures Fits(m, filter) <==> |filter| <= |m| && forall k :: 0 <= k < |filter| ==> Meets(m[k], filter[k])
  {
    if filter != "" && m != "" {
      FitsEverywhere(m[1..], filter[1..]);
      assert forall k :: 0 < k < |filter| && |filter| <= |m| ==>
               m[k] == m[1..][k - 1] && filter[k] == filter[1..][k - 1];
      assert forall k :: 0 <= k < |filter[1..]| && |filter| <= |m| ==>
               filter[1..][k] == filter[k + 1] && m[1..][k] == m[k + 1];
    }
  }

  /** The part of a text agrees with the filter, dots standing for any character of a line. */
  predicate Agrees(part: string, filter: string) {
    && |part| == |filter|
    && forall k :: 0 <= k < |filter| ==> part[k] == filter[k] || (filter[k] == '.' && part[k] != '\n')
  }

  predicate AgreesAt(m: string, i: nat, filter: string) {
    i + |filter| <= |m| && Agrees(m[i..i + |filter|], filter)
  }

  lemma FitsAtStart(m: string, filter: string)
    ensures Fits(m, filter) <==> AgreesAt(m, 0, filter)
  {
    FitsEverywhere(m, filter);
  }

  lemma AgreesShift(m: string, i: nat, filter: string)
    requires m != ""
    ensures AgreesAt(m[1..], i, filter) <==> AgreesAt(m, i + 1, filter)
  {
    if i + 1 + |filter| <= |m| {
      assert m[1..][i..i + |filter|] == m[i + 1..i + 1 + |filter|];
    }
  }

  /** A filter matches exactly where some part of the text agrees with it. */
  lemma {:induction false} MatchesSomewhere(m: string, filter: string)
    ensures Matches(m, filter) <==> exists i :: AgreesAt(m, i, filter)
  {
    FitsAtStart(m, filter);
    if m != "" {
      MatchesSomewhere(m[1..], filter);
      if i :| AgreesAt(m[1..], i, filter) {
        AgreesShift(m, i, filter);
      }
      if i: nat :| AgreesAt(m, i, filter) && i > 0 {
        AgreesShift(m, i - 1, filter);
      }
    }
  }

  lemma MatchesSelf(name: string)
    ensures Matches(name, name)
  {
    FitsEverywhere(name, name);
  }

  /** A filter without dots is looked for as it is; otherwise it matches at least where it is found. */
  lemma {:induction false} MatchesOrContains(m: string, filter: string)
    ensures Contains(m, filter) ==> Matches(m, filter)
    ensures '.' !in filter ==> (Matches(m, filter) <==> Contains(m, filter))
  {
    FitsEverywhere(m, filter);
    if m != "" {
      MatchesOrContains(m[1..], filter);
    }
    if HasPrefix(m, filter) {
      assert forall k :: 0 <= k < |filter| ==> m[k] == filter[k];
    }
  }

  /** A text of the filter's length matches it only as a whole. */
  lemma MatchOfSameLength(m: string, filter: string)
    requires |m| == |filter|
    ensures Matches(m, filter) <==> forall k :: 0 <= k < |filter| ==> Meets(m[k], filter[k])
  {
    FitsEverywhere(m, filter);
    if m != "" {
      ShorterNeverMatches(m[1..], filter);
    }
  }

  lemma {:induction false} ShorterNeverMatches(m: string, filter: string)
    requires |m| < |filter|
    ensures !Matches(m, filter)
  {
    FitsEverywhere(m, filter);
    if m != "" {
      ShorterNeverMatches(m[1..], filter);
    }
  }

  function Matching(store: Store, filter: string): set<string> {
    set m | m in store && Matches(m, filter)
  }

  /** The revisions of these names that are shown. */
  function ShownOf(store: Store, names: set<string>): set<(string, nat)> {
    set m, v: nat | m in store && m in names && v < |store[m]| && Shown(store[m][v].code) :: (m, v)
  }

  /** The revisions that a listing filtered by `name` shows. */
  function Listed(store: Store, name: string): set<(string, nat)> {
    ShownOf(store, Matching(store, name))
  }

  // ---------- what the requests mean ----------

  /** A name's history, if it has one. */
  function HistoryOf(store: Store, name: string): seq<Revision> {
    if name in store then store[name] else []
  }

  /** Nothing but the history of `name` may differ. */
  predicate OnlyAt(before: Store, after: Store, name: string) {
    before - {name} == after - {name}
  }

  /** `after` extends `before` by one revision; of the older ones only the codes may have changed. */
  predicate Extends(after: seq<Revision>, before: seq<Revision>) {
    && |after| == |before| + 1
    && forall v :: 0 <= v < |before| ==> after[v] == before[v].(code := after[v].code)
  }

  /** Installing is granted exactly if the name is short enough and not live and nothing fails. The store
      changes exactly if moreover the name can be stored and the request gets past its preparation; then one
      revision with exactly the given namespace and values is added, and the name is live afterwards unless
      the failure was recorded. */
  lemma InstallExactly(store: Store, name: string, namespace: string, values: map<string, string>, fault: Fault)
    ensures var (after, reply) := Install(store, name, namespace, values, fault);
            && OnlyAt(store, after, name)
            && (reply.Granted? <==> fault == NoFault && |name| <= MAX_NAME && !Live(store, name))
            && (after != store <==>
                  Storable(name) && |name| <= MAX_NAME && !Live(store, name) && !fault.Before?)
            && (after != store ==>
                  && Extends(HistoryOf(after, name), HistoryOf(store, name))
                  && Last(after[name]).namespace == namespace && Last(after[name]).values == values
                  && (Live(after, name) <==> fault.Midway? ==> fault.progress == 0)
                  && (reply.Granted? ==> Last(after[name]).code == Deployed))
  {
    var (after, reply) := Install(store, name, namespace, values, fault);
    if Storable(name) && |name| <= MAX_NAME && !Live(store, name) && !fault.Before? {
      assert |HistoryOf(after, name)| == |HistoryOf(store, name)| + 1;
    }
  }

  /** What an installation that gets past its preparation records, revision by revision: the last old one is
      superseded, and the new one is DEPLOYED unless the request fails half-way. */
  lemma InstallRecords(store: Store, name: string, namespace: string, values: map<string, string>, fault: Fault)
    requires Storable(name) && |name| <= 53 && !fault.Before?
    requires name in store ==> var code := store[name][|store[name]| - 1].code; code == Failed || code == Deleted
    ensures var after := Install(store, name, namespace, values, fault).0;
            var h := HistoryOf(store, name);
            var code := if !fault.Midway? then Deployed else if fault.progress == 0 then PendingInstall else Failed;
            && name in after && |after[name]| == |h| + 1
            && (forall v :: 0 <= v < |h| - 1 ==> after[name][v] == h[v])
            && (h != [] ==> after[name][|h| - 1] == Revision(Superseded, h[|h| - 1].namespace, h[|h| - 1].values))
            && after[name][|h|] == Revision(code, namespace, values)
  {
  }

  /** The same for an upgrade of the first revision that is DEPLOYED: it alone is superseded, if the request
      gets that far, and the new one has its namespace, and its values if none are given. */
  lemma UpgradeRecords(store: Store, name: string, values: map<string, string>, fault: Fault, i: nat)
    requires ValidName(name) && name in store && !fault.Before?
    requires i < |store[name]| && store[name][i].code == Deployed
    requires forall j :: 0 <= j < i ==> store[name][j].code != Deployed
    ensures var after := Upgrade(store, name, values, fault).0;
            var h := store[name];
            var early := fault.Midway? && fault.progress <= 1;
            var code := if !fault.Midway? then Deployed else if fault.progress == 1 then Failed else PendingUpgrade;
            && name in after && |after[name]| == |h| + 1
            && (forall v :: 0 <= v < |h| && v != i ==> after[name][v] == h[v])
            && after[name][i] == Revision(if early then Deployed else Superseded, h[i].namespace, h[i].values)
            && after[name][|h|] == Revision(code, h[i].namespace, if values == map[] then h[i].values else values)
  {
    assert FirstDeployed(store[name]) == i;
  }

  /** The same for a deletion: it leaves nothing, unless it stops half-way with some revisions left; these
      are the newest, and the last one is marked DELETING if it was not DELETED. */
  lemma PurgeRecords(store: Store, name: string, fault: Fault)
    requires ValidName(name) && name in store && !fault.Before?
    ensures var after := Purge(store, name, fault).0;
            var h := store[name];
            && (name in after <==> fault.Midway? && fault.progress < |h|)
            && (name in after ==>
                  var k, n := fault.progress, |h| - fault.progress;
                  var last := h[|h| - 1];
                  && |after[name]| == n
                  && (forall v :: 0 <= v < n - 1 ==> after[name][v] == h[k + v])
                  && after[name][n - 1] == if last.code == Deleted then last else last.(code := Deleting))
  {
  }

  /** How many revisions are DEPLOYED. */
  function DeployedCount(h: seq<Revision>): nat {
    if h == [] then 0 else (if h[|h| - 1].code == Deployed then 1 else 0) + DeployedCount(h[..|h| - 1])
  }

  lemma {:induction false} DeployedCountUpdate(h: seq<Revision>, v: nat, code: Code)
    requires v < |h|
    ensures DeployedCount(h[v := h[v].(code := code)])
            == DeployedCount(h) - (if h[v].code == Deployed then 1 else 0) + (if code == Deployed then 1 else 0)
  {
    var n, h' := |h| - 1, h[v := h[v].(code := code)];
    if v < n {
      assert h'[..n] == h[..n][v := h[..n][v].(code := code)];
      DeployedCountUpdate(h[..n], v, code);
    } else {
      assert h'[..n] == h[..n];
    }
  }

  lemma DeployedCountAppend(h: seq<Revision>, r: Revision)
    ensures DeployedCount(h + [r]) == DeployedCount(h) + (if r.code == Deployed then 1 else 0)
  {
    assert (h + [r])[..|h|] == h;
  }

  /** Upgrading is granted exactly if there is a DEPLOYED revision and nothing fails; then the number of
      DEPLOYED revisions is unchanged, and the new last one keeps the namespace of the one it supersedes
      and has the given values, or its values if none are given. */
  lemma UpgradeExactly(store: Store, name: string, values: map<string, string>, fault: Fault)
    ensures var (after, reply) := Upgrade(store, name, values, fault);
            && OnlyAt(store, after, name)
            && (reply.Granted? <==> fault == NoFault && Upgradable(store, name))
            && (after != store ==> Extends(HistoryOf(after, name), HistoryOf(store, name)))
            && (reply.Granted? ==>
                  var base := store[name][FirstDeployed(store[name])];
                  && DeployedCount(after[name]) == DeployedCount(store[name]) > 0
                  && Last(after[name]).code == Deployed && Last(after[name]).namespace == base.namespace
                  && Last(after[name]).values == (if values == map[] then base.values else values))
  {
    if Upgradable(store, name) {
      UpgradeKeepsDeployedCount(store[name], values);
    }
  }

  lemma UpgradeKeepsDeployedCount(h: History, values: map<string, string>)
    requires FirstDeployed(h) < |h|
    ensures DeployedCount(Supersede(h) + [Upgraded(h, values)]) == DeployedCount(h) > 0
  {
    DeployedCountUpdate(h, FirstDeployed(h), Superseded);
    DeployedCountAppend(Supersede(h), Upgraded(h, values));
  }

  /** Deleting is granted exactly for a stored valid name when nothing fails, and then looking the name
      up says that it is missing. A failed deletion leaves everything as it was, or nothing, or the newest
      revisions, of which the last is marked DELETING if it was not DELETED. */
  lemma PurgeExactly(store: Store, name: string, fault: Fault)
    ensures var (after, reply) := Purge(store, name, fault);
            && OnlyAt(store, after, name)
            && (reply.Granted? <==> fault == NoFault && ValidName(name) && name in store)
            && (reply.Granted? ==> name !in after && SaysMissing(Lookup(after, name, NoFault)))
            && (after != store && name in after ==>
                  && Last(after[name]).code in {Deleting, Deleted}
                  && exists k :: 0 <= k < |store[name]| && after[name] == Marked(store[name])[k..])
  {
    MissingSaysMissing(name);
  }

  /** A lookup that does not fail tells the last revision of a stored valid name, and says "not found"
      exactly for valid names that are not stored. */
  lemma LookupExactly(store: Store, name: string)
    ensures Lookup(store, name, NoFault).Granted? <==> ValidName(name) && name in store
    ensures ValidName(name) && name in store ==>
              Lookup(store, name, NoFault).revision == store[name][|store[name]| - 1]
    ensures SaysMissing(Lookup(store, name, NoFault)) <==> ValidName(name) && name !in store
  {
    MissingSaysMissing(name);
  }

  // ---------- what a listing shows ----------

  function OwnListed(store: Store, name: string): set<(string, nat)> {
    set e | e in Listed(store, name) && e.0 == name
  }

  function ForeignListed(store: Store, name: string): set<(string, nat)> {
    set e | e in Listed(store, name) && e.0 != name
  }

  /** The store as seen by one release alone. */
  function Restrict(store: Store, name: string): Store {
    map m | m in store && m == name :: store[m]
  }

  lemma ListedRestricted(store: Store, name: string)
    ensures Listed(Restrict(store, name), name) == OwnListed(store, name)
    ensures |Listed(store, name)| == |OwnListed(store, name)| + |ForeignListed(store, name)|
  {
    assert Listed(store, name) == OwnListed(store, name) + ForeignListed(store, name);
  }

  /** A listing shows exactly one revision just when it would do so without the other releases, except
      in two cases: others are shown besides the only own one, or one other in place of none. */
  lemma ListingShowsOneExactly(store: Store, name: string)
    ensures (|Listed(store, name)| == 1 <==> |Listed(Restrict(store, name), name)| == 1) <==>
            && (|OwnListed(store, name)| == 1 ==> |ForeignListed(store, name)| == 0)
            && (|OwnListed(store, name)| == 0 ==> |ForeignListed(store, name)| != 1)
    ensures |ForeignListed(store, name)| == 0 <==>
            forall m, v: nat :: m in store && m != name && v < |store[m]| && Shown(store[m][v].code) ==>
                                  !Matches(m, name)
  {
    ListedRestricted(store, name);
    if m, v: nat :| m in store && m != name && v < |store[m]| && Shown(store[m][v].code) && Matches(m, name) {
      assert (m, v) in ForeignListed(store, name);
    } else {
      assert ForeignListed(store, name) == {};
    }
  }

  lemma ShownAdded(store: Store, after: Store, names: set<string>, name: string)
    requires name in names && name in store && name in after && OnlyAt(store, after, name)
    requires |after[name]| == |store[name]| + 1 && store[name] == after[name][..|store[name]|]
    requires Shown(Last(after[name]).code)
    ensures |ShownOf(after, names)| == |ShownOf(store, names)| + 1
  {
    OnlyAtEntries(store, after, name);
    assert ShownOf(after, names) == ShownOf(store, names) + {(name, |store[name]|)};
  }

  lemma ShownReplaced(store: Store, after: Store, names: set<string>, name: string, base: nat)
    requires name in names && name in store && name in after && OnlyAt(store, after, name)
    requires base < |store[name]| && |after[name]| == |store[name]| + 1 && Shown(Last(after[name]).code)
    requires forall v :: 0 <= v < |store[name]| && v != base ==> after[name][v] == store[name][v]
    requires Shown(store[name][base].code) && !Shown(after[name][base].code)
    ensures |ShownOf(after, names)| == |ShownOf(store, names)|
  {
    OnlyAtEntries(store, after, name);
    assert (name, base) in ShownOf(store, names);
    assert ShownOf(after, names) == ShownOf(store, names) - {(name, base)} + {(name, |store[name]|)};
  }

  lemma SameMatching(store: Store, after: Store, name: string)
    requires store.Keys == after.Keys && name in store
    ensures Matching(store, name) == Matching(after, name) && name in Matching(store, name)
  {
    MatchesSelf(name);
  }

  lemma OnlyAtEntries(store: Store, after: Store, name: string)
    requires OnlyAt(store, after, name)
    ensures forall m :: m != name ==> (m in store <==> m in after) && (m in store ==> store[m] == after[m])
  {
    forall m | m != name
      ensures (m in store <==> m in after) && (m in store ==> store[m] == after[m])
    {
      assert m in store - {name} <==> m in after - {name};
      assert m in store ==> (store - {name})[m] == (after - {name})[m];
    }
  }

  /** An upgrade that fails half-way adds a revision to what a listing shows, unless it got as far as to
      supersede the old one; the old one is shown. */
  lemma ListedHalfway(store: Store, name: string, values: map<string, string>, fault: Fault)
    requires Upgradable(store, name) && fault.Midway?
    ensures |Listed(store, name)| >= 1
    ensures var after := Upgrade(store, name, values, fault).0;
            |Listed(after, name)| == |Listed(store, name)| + (if fault.progress <= 1 then 1 else 0)
  {
    var h, next := store[name], Upgraded(store[name], values);
    var base: (string, nat) := (name, FirstDeployed(h));
    MatchesSelf(name);
    assert base in Listed(store, name);
    if fault.progress == 0 {
      AppendedIsListed(store, name, next.(code := PendingUpgrade));
    } else if fault.progress == 1 {
      AppendedIsListed(store, name, next.(code := Failed));
    } else {
      PendingReplaces(store, name, next.(code := PendingUpgrade));
    }
  }

  lemma AppendedIsListed(store: Store, name: string, r: Revision)
    requires name in store && Shown(r.code)
    ensures |Listed(store[name := store[name] + [r]], name)| == |Listed(store, name)| + 1
  {
    var after := store[name := store[name] + [r]];
    SameMatching(store, after, name);
    ShownAdded(store, after, Matching(store, name), name);
  }

  lemma PendingReplaces(store: Store, name: string, r: Revision)
    requires name in store && FirstDeployed(store[name]) < |store[name]| && Shown(r.code)
    ensures |Listed(store[name := Supersede(store[name]) + [r]], name)| == |Listed(store, name)|
  {
    var after := store[name := Supersede(store[name]) + [r]];
    SameMatching(store, after, name);
    ShownReplaced(store, after, Matching(store, name), name, FirstDeployed(store[name]));
  }

  // ---------- the server ----------

  lemma WithLastOfAppend(h: seq<Revision>, r: Revision, code: Code)
    ensures WithLast(h + [r], code) == h + [r.(code := code)]
  {
  }

  /** The store as a mutable object, for handlers that run on their own. The methods go through the
      stages in which Tiller records what it does. */
  class Server {
    var store: Store

    constructor (initial: Store)
      ensures store == initial
    {
      store := initial;
    }

    method ReleaseStatus(name: string, fault: Fault) returns (r: Reply)
      ensures r == Lookup(store, name, fault)
    {
      if fault != NoFault {
        return Refused(fault.message);
      }
      if !ValidName(name) {
        return BadName;
      }
      r := if name in store then Granted(Last(store[name])) else Refused(Missing(name));
    }

    method InstallRelease(name: string, namespace: string, values: map<string, string>, fault: Fault)
        returns (r: Reply)
      modifies this
      ensures (store, r) == Install(old(store), name, namespace, values, fault)
    {
      if |name| > MAX_NAME || Live(store, name) {
        return Refused(IN_USE);
      }
      if fault.Before? {
        return Refused(fault.message);
      }
      var pending := Revision(PendingInstall, namespace, values);
      var code := if fault.Midway? then Failed else Deployed;
      if Storable(name) {
        var older := [];
        if name in store {
          store := store[name := WithLast(store[name], Superseded)];
          older := store[name];
        }
        store := store[name := older + [pending]];
        assert store == Installed(old(store), name, pending);
        if fault.Midway? && fault.progress == 0 {
          return Refused(fault.message);
        }
        WithLastOfAppend(older, pending, code);
        store := store[name := WithLast(store[name], code)];
        assert store == Installed(old(store), name, pending.(code := code));
      }
      r := if fault == NoFault then Granted(pending.(code := code)) else Refused(fault.message);
    }

    method UpdateRelease(name: string, values: map<string, string>, fault: Fault) returns (r: Reply)
      modifies this
      ensures (store, r) == Upgrade(old(store), name, values, fault)
    {
      if !ValidName(name) || name !in store || FirstDeployed(store[name]) == |store[name]| {
        return Refused(NOT_DEPLOYED);
      }
      if fault.Before? {
        return Refused(fault.message);
      }
      var deployed := FirstDeployed(store[name]);
      var current := store[name][deployed];
      var config := if values == map[] then current.values else values;
      var pending := Revision(PendingUpgrade, current.namespace, config);
      store := store[name := store[name] + [pending]];
      if fault.Midway? && fault.progress == 0 {
        return Refused(fault.message);
      }
      if fault.Midway? && fault.progress == 1 {
        WithLastOfAppend(old(store)[name], pending, Failed);
        store := store[name := WithLast(store[name], Failed)];
        assert store == old(store)[name := old(store)[name] + [pending.(code := Failed)]];
        return Refused(fault.message);
      }
      store := store[name := store[name][deployed := current.(code := Superseded)]];
      ghost var superseded := Supersede(old(store)[name]);
      assert store[name] == superseded + [pending];
      assert store == old(store)[name := superseded + [pending]];
      if fault.Midway? {
        return Refused(fault.message);
      }
      WithLastOfAppend(superseded, pending, Deployed);
      store := store[name := WithLast(store[name], Deployed)];
      assert store == old(store)[name := superseded + [pending.(code := Deployed)]];
      r := if fault == NoFault then Granted(Last(store[name])) else Refused(fault.message);
    }

    method DeleteRelease(name: string, fault: Fault) returns (r: Reply)
      modifies this
      ensures (store, r) == Purge(old(store), name, fault)
    {
      if !ValidName(name) {
        return BadName;
      }
      if name !in store {
        return Refused(Missing(name));
      }
      if fault.Before? {
        return Refused(fault.message);
      }
      var last := Last(store[name]);
      if last.code != Deleted {
        store := store[name := WithLast(store[name], Deleting)];
      }
      var revisions, purged := store[name], 0;
      while purged < |revisions| && !(fault.Midway? && purged == fault.progress)
        invariant purged <= |revisions| && (fault.Midway? ==> purged <= fault.progress)
        invariant store == if purged < |revisions| then old(store)[name := revisions[purged..]]
                           else old(store) - {name}
      {
        purged := purged + 1;
        if purged == |revisions| {
          store := store - {name};
        } else {
          assert revisions[purged..] != [];
          store := store[name := revisions[purged..]];
        }
      }
      r := if fault == NoFault then Granted(last) else Refused(fault.message);
    }

    method ListReleases(name: string, fault: Fault) returns (failed: bool, count: nat)
      ensures failed <==> fault != NoFault
      ensures count == |OwnListed(store, name)| + |ForeignListed(store, name)|
    {
      failed := fault != NoFault;
      count := |Listed(store, name)|;
      ListedRestricted(store, name);
    }
  }
}
