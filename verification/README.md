# Helmi service broker: a verified model

Helmi answers Open Service Broker requests by driving Helm's server, Tiller. This project models the parts of
Helmi that carry logic and proves what they promise:

* **Status reports** (`Text`, `Decimal`, `Elastic`, `Columns`, `Ports`, `StatusReport`, `Tables`, `Reports`,
  `KubectlTables`, `MissingResources`, `NodeCounts`). Tiller prints one table per resource kind. `formatResources`
  turns runs of spaces into tabs and re-aligns the text with elastic tab stops; `convertByteToStatus` then reads it
  line by line with twelve column registers (here the twelve fields of one variable that the loop overwrites). The
  reader is shown to equal a reader that takes each blank-line separated section alone, and printing, formatting and
  reading together recover the cells of every well-formed report, with every slice and index in range.
* **Endpoints** (`Unordered`, `Endpoints`). Ports and addresses are picked from maps that Go iterates in an arbitrary
  order. Every iteration order is an argument of the model, and the theorems say for which inputs it does not matter.
* **Chart values** (`Values`). Three maps are merged and the dotted keys are folded into a nested tree by
  `strvals.ParseInto`, again in any order.
* **Catalog and names** (`Catalog`, `Names`). Lookups that ignore case, and the mangled release names.
* **Instance lifecycle** (`Tiller`, `Lifecycle`, `Broker`, `Polling`). Handlers are sequences of remote requests that
  interleave freely; Tiller is the trusted part, an atomic store of release histories (all revisions of a name, as
  the vendored Tiller keeps them) whose requests may fail before, at any stage of, or after their effect. Whole
  requests run alone are methods on a mutable store.

A Go run-time error (slice or index out of range, failed type assertion) is the outcome `Panic`, `Mismatch` or
`Crashed`, never a precondition. Integers are 64 bits wide and sums wrap around. Text is ASCII.

Where the code differs from its evident intent, the code is modelled and the exact condition is proved:

* `pkg/release/release.go:215` fills the deleted flag from the deployed flag (`Polling.WrittenDiffersExactly`). On
  Tiller's replies this shows exactly for deployed releases with nodes missing before the deadline
  (`Polling.ReplyDiffersExactly`), for instance `NodeCounts.MissingNodeReportedAsSuccess`. The empty answer to a
  poll needs a DELETED release with nodes missing, which Tiller never reports because it sends no resources for one.
* An upgrade that Tiller refuses without effect is reported as success when the listing shows a single revision
  (`Broker.RefusedUpgradeReported`); one that fails half-way is, once the old revision is superseded
  (`Broker.HalfwayUpgradeReported`).
* That listing takes the name as a regular expression, so it also counts other releases whose names contain it or
  differ from it only at its dots. Answers, unlike records, depend on other instances
  (`Lifecycle.ListingAnswerIsolated`, `Lifecycle.AnswersNotIsolated`, `Lifecycle.DottedAnswersNotIsolated`).
* An update passes the user's parameters alone to Tiller, so the plan's values are dropped
  (`Broker.UpdateReplacesValues`).
* An instance whose release name Kubernetes cannot store as an object's name is provisioned without a record, any
  number of times, and cannot be deprovisioned or polled (`Broker.UnstorableNameUnrecorded`,
  `Broker.GeneratedNameStorable`, `Lifecycle.UnstorableProvisionedTwice`).
* `Port` without an argument depends on the map order as soon as two different ports are on offer
  (`Endpoints.UnspecifiedPortDetermined`).
* A lookup that fails with a message containing "not found" counts as a missing instance: a deprovision then
  answers "does not exist" and deletes nothing (`Broker.DeprovisionAnswer`).
* The port of an ingress is looked for under ADDRESS, which is right for ingresses without an address only; one
  with an address gets port 0 (`KubectlTables.AddressedIngressesReadBack`).
* A key that is a dotted prefix of another makes the values depend on the map order, up to a failed type assertion
  (`Values.OrderIndependence`).
* A lookup of an unknown plan is not an error; the service's own chart is installed
  (`Catalog.UnknownPlanGetsServiceChart`).

## Model

| member | source | states |
|---|---|---|
| Text.IndexIsFirstMatch | pkg/helm/status.go:113-124 | the offset found for a label is its first occurrence, and -1 means there is none |
| Text.SplitJoin | pkg/helm/status.go:177 | splitting at a separator undoes joining, for parts without the separator |
| Text.ScanUnlines | pkg/helm/status.go:68-90 | scanning newline-terminated lines gives the lines back |
| Text.ScanLooseLines | pkg/helm/status.go:68-90 | lines may end in a carriage return, which is dropped, and the last one need not end at all |
| Text.LowerPairs | pkg/release/release.go:290 | lowering turns the i-th capital of the written-out alphabet into the i-th small letter and keeps every other character |
| Text.EqualFoldExactly | pkg/catalog/catalog.go:220-240 | two texts agree up to case exactly if they are equally long and each pair of characters is equal or the two cases of one letter |
| Decimal.AtoiItoa | pkg/helm/status.go:217 | every 64-bit integer survives being written and read |
| Decimal.DigitsSpelled | pkg/catalog/catalog.go:327 | the ten numerals, and how a number of several digits is written |
| Decimal.AtoiExactly | pkg/helm/status.go:217 | a text is read as n exactly if it is an optional sign, zeros and the digits of n, for n within 64 bits |
| Decimal.NoNumberExactly | pkg/helm/status.go:217 | a text is refused exactly if it is empty, a sign alone, has a character that is no digit or leading sign, or denotes a number out of range |
| Elastic.SqueezeAcrossNewline | pkg/helm/client.go:268-270 | replacing runs of spaces by tabs works line by line |
| Elastic.WidthIsWidestCell | pkg/helm/client.go:269 | in an unbroken block of lines a column is as wide as its widest tab-terminated cell plus the padding 2: no cell is wider and some cell reaches it |
| Elastic.AlignAcross | pkg/helm/client.go:266-273 | a line of one cell cuts the text into pieces that are aligned independently |
| Elastic.LeadingEmptyCells | pkg/helm/client.go:269 | empty cells at the start of a line leave no trace in the output |
| Elastic.TrailingSpacesDropped | pkg/helm/client.go:268-271 | two or more spaces at the end of a text without a final newline are dropped and change nothing else |
| Columns.ColumnsAligned | pkg/helm/client.go:266-273 | a column starts at the same offset on all consecutive lines that reach it |
| Columns.TextOfColumn | pkg/helm/status.go:202-205 | on a line whose first cell is not empty the text between the offsets of neighbouring columns is the cell, empty or not, and its padding |
| Columns.IndexInLine | pkg/helm/status.go:113-124 | on an aligned line a space-free label is found inside the first cell that contains it, at that column's offset |
| Columns.SqueezeRow | pkg/helm/client.go:268-270 | squeezing a printed row leaves its non-empty cells separated by tabs; an empty cell disappears |
| Ports.ParsePortList | pkg/helm/status.go:209-232 | the port loop computes the maps that the list entries define, in order |
| Ports.ParsedPortsWellPorted | pkg/helm/status.go:212-232 | whatever the text, cluster ports map to themselves and node ports belong to cluster ports |
| Ports.EntryAdds | pkg/helm/status.go:212-232 | what an entry of any shape adds: two parts starting with a number a cluster port, three parts starting with two numbers a cluster and a node port, all others nothing |
| Ports.PortListRoundTrip | pkg/helm/status.go:212-232 | printing a non-empty port list and parsing it gives exactly its cluster ports, each mapped to itself, and for each the last node port listed |
| StatusReport.ReadServiceRow | pkg/helm/status.go:202-242 | a service row yields one service per name, or an index out of range |
| StatusReport.NumberOrCounts | pkg/helm/status.go:139-155 | a number is read as the integer that its characters denote, and counts as the default if they denote none within 64 bits |
| StatusReport.CollectServices | pkg/helm/status.go:208-242 | the loop over a row yields the services that the lists of names, types, addresses and ports define, or an index out of range |
| StatusReport.ScanWorkload | pkg/helm/status.go:127-161 | a workload header sets its columns, any other line below one adds its node counts |
| StatusReport.ScanIngress | pkg/helm/status.go:163-190 | an ingress header sets its columns, any other line below one appends an ingress |
| StatusReport.ScanService | pkg/helm/status.go:192-245 | a service header sets its columns, any other line below one appends its services |
| StatusReport.ScanLine | pkg/helm/status.go:92-245 | the loop body changes registers and totals as the three parts in sequence say |
| StatusReport.ConvertByteToStatus | pkg/helm/status.go:61-279 | the streaming loop equals reading the report section by section, each from reset registers, and adding up; the status holds the name, namespace, services, ingresses and node counts that were read, and its flags are spelled out by code and deadline |
| StatusReport.BlankResets | pkg/helm/status.go:92-107 | a blank line resets every register and contributes nothing |
| StatusReport.RowsBelowHeaders | pkg/helm/status.go:92-204 | after any lines, rows of a kind are read exactly if all columns of that kind have been found |
| StatusReport.RunFrame | pkg/helm/status.go:89-247 | earlier lines influence later ones only through the registers |
| StatusReport.ParseAcrossBlank | pkg/helm/status.go:89-247 | reading two texts with a blank line between them is reading each alone and combining the results |
| StatusReport.StreamingIsSectionwise | pkg/helm/status.go:89-247 | streaming equals section-wise reading on every report, including those that end in a run-time error |
| Tables.LabelAtOffset | pkg/helm/status.go:113-124 | a label that heads its own cell and occurs in no earlier cell is found exactly where its column starts |
| Tables.CellReadBack | pkg/helm/status.go:139-151 | reading a field at the header's offset gives the first word of the row's own cell |
| Tables.FirstWordOfTwo | pkg/helm/status.go:139-151 | a cell with a single inner space is read as its first word |
| Tables.CellBetweenOffsets | pkg/helm/status.go:202-205 | the fields between two neighbouring header offsets are exactly the row's cell |
| Tables.WorkloadHeaderSets | pkg/helm/status.go:127-133 | an aligned workload header sets the registers to its columns' offsets and contributes nothing |
| Tables.WorkloadRowRead | pkg/helm/status.go:135-160 | an aligned row contributes its DESIRED cell, and its AVAILABLE cell or else its CURRENT cell |
| Tables.WorkloadCounts | pkg/helm/status.go:136-157 | the desired nodes are the number under DESIRED or else 0, the available ones the number under AVAILABLE or else CURRENT or else 0 |
| Tables.IngressHeaderSets | pkg/helm/status.go:163-168 | an aligned ingress header sets the registers to its columns' offsets |
| Tables.IngressRowRead | pkg/helm/status.go:170-189 | an aligned row contributes its name, its comma-separated hosts and the port under ADDRESS |
| Tables.IngressPortCounts | pkg/helm/status.go:173-181 | the port is the number before the first comma under ADDRESS, or else 0 |
| Tables.ServiceHeaderSets | pkg/helm/status.go:192-198 | an aligned service header sets the registers to its columns' offsets |
| Tables.ServiceRowRead | pkg/helm/status.go:200-243 | an aligned row of words contributes one service with its own name, type, address and ports |
| Reports.TableReads | pkg/helm/status.go:89-247 | a section with an aligned table is read without a run-time error as the sum of what its rows say |
| Reports.FormatLines | pkg/helm/client.go:266-273 | formatting newline-terminated lines aligns the cells that squeezing leaves |
| Reports.ReportReadsBack | pkg/helm/client.go:240-250 | for every report of well-formed tables, printing, formatting and reading give exactly what the rows say, with every access in range |
| Reports.GetStatus | pkg/helm/client.go:230-251 | the reply of Tiller is formatted and read; the status holds the services, ingresses and node counts read, on a printed well-formed report what its rows say, and its flags are spelled out by code and deadline |
| NodeCounts.CountsAreExactSums | pkg/helm/status.go:158-159 | the node counts are the exact sums over all rows if and only if those fit 64 bits |
| NodeCounts.AvailableIffEveryRowIs | pkg/release/release.go:213 | if no row has more available than desired nodes, the totals compare exactly as every single row does |
| NodeCounts.ReleaseAvailableIffRowsAre | pkg/release/release.go:210-216 | for every printed report the status holds the exact sums over all tables, and under that bound the release is available exactly when every row is |
| NodeCounts.PollOfPermutation | vendor/k8s.io/helm/pkg/kube/client.go:213-224 | the tables are printed in the order of a map; the answer to a poll is the same for every order |
| NodeCounts.SurplusHidesShortage | pkg/release/release.go:213 | without that bound there is a printed report in which a surplus in one row hides a shortage in another |
| NodeCounts.MissingNodeReportedAsSuccess | pkg/release/release.go:215 | there is a printed report of a deployed release with a node missing that is answered with success instead of in progress |
| KubectlTables.HeadersSpelled | vendor/k8s.io/kubernetes/pkg/printers/internalversion/printers.go:176-205 | the headers of services, ingresses, stateful sets and deployments, written out; capitals replace the letters when printed |
| KubectlTables.ServiceHeaderIsRead | pkg/helm/status.go:192-198 | the header Kubernetes prints for services is read as a service header |
| KubectlTables.IngressHeaderIsRead | pkg/helm/status.go:163-168 | the header Kubernetes prints for ingresses is read as an ingress header |
| KubectlTables.DeploymentHeaderIsRead | pkg/helm/status.go:127-133 | the header for deployments is read as a workload header with AVAILABLE |
| KubectlTables.StatefulSetHeaderIsRead | pkg/helm/status.go:127-133 | the header for stateful sets is read as a workload header without AVAILABLE |
| KubectlTables.IngressWithoutAddress | pkg/helm/status.go:171-181 | a row with an empty ADDRESS cell loses that cell, and reading at ADDRESS recovers the first port while all printed hosts are recovered |
| KubectlTables.PendingIngressesReadBack | pkg/helm/status.go:163-190 | the printed text of a table of any number of such rows, formatted and read, gives all names, printed hosts and first ports in order |
| KubectlTables.StatusOfIngresses | pkg/helm/status.go:163-190 | the status of such a printed table holds one ingress per row, in order, with its own name, printed hosts and first port |
| KubectlTables.AddressedIngressesReadBack | pkg/helm/status.go:173-181 | a printed table of any number of ingresses with an address gives all names and printed hosts, but the port is looked for in the address and is 0 unless that starts with a number |
| KubectlTables.HostCellOfRules | vendor/k8s.io/kubernetes/pkg/printers/internalversion/printers.go:906-928 | the cell printed for any rules is one that the tables above read back |
| KubectlTables.FirstHostsExactly | vendor/k8s.io/kubernetes/pkg/printers/internalversion/printers.go:906-928 | the hosts printed are the first three that are not empty, and others are announced exactly if a rule follows them |
| KubectlTables.FirstHostsRead | vendor/k8s.io/kubernetes/pkg/printers/internalversion/printers.go:906-928 | of an ingress with any rules the first three hosts are read, or "*" if none has a host; further hosts are printed as a number only and lost |
| KubectlTables.ServicesReadBack | pkg/helm/status.go:192-245 | the printed text of a table of any number of services, formatted and read, gives one service per row with its own name, type, address and exactly the printed ports |
| KubectlTables.StatusOfServices | pkg/helm/status.go:192-245 | the status of such a printed table holds one service per row, in order, with its own name, type, address and exactly the printed ports |
| KubectlTables.DeploymentsReadBack | pkg/helm/status.go:127-161 | the printed text of a table of any number of deployments gives each one's desired and available nodes |
| KubectlTables.StatefulSetsReadBack | pkg/helm/status.go:127-161 | the printed text of a table of any number of stateful sets gives each one's desired nodes and its current ones as available, and 0 for a count that is no number |
| MissingResources.MissingResourcesIgnored | vendor/k8s.io/helm/pkg/kube/client.go:225-230 | a report that ends with the section of missing resources is read as if they were not mentioned |
| Endpoints.ParsedStatusWellFormed | pkg/helm/status.go:176-187 | on any text, parsed services are well ported and every ingress has a host |
| Endpoints.RequestedPort | pkg/catalog/catalog.go:316-349 | for a service with well-ported maps, in every map order a requested port is answered by its node port, if it has one and the service is no load balancer, and by itself otherwise |
| Endpoints.ParsedPortAnswer | pkg/catalog/catalog.go:316-349 | the same for the first service of every status, whatever text it was read from |
| Endpoints.PrintedPortAnswer | pkg/catalog/catalog.go:316-349 | for the status of a printed table of services a requested port is answered by the last node port printed for it in the first row, if there is one and the service is no load balancer, and by itself otherwise |
| Endpoints.UnspecifiedPortAnswer | pkg/catalog/catalog.go:316-349 | without a requested port a load balancer answers with one of its cluster ports, any other service with one of its node ports or for want of any a cluster port |
| Endpoints.UnspecifiedPortDetermined | pkg/catalog/catalog.go:316-349 | without a requested port the answer is independent of the map order if and only if the consulted map holds at most one distinct port |
| Endpoints.PrintedLoadBalancerUndetermined | pkg/catalog/catalog.go:324-330 | on every printed table whose first service is a load balancer with two different ports, the port given without a request depends on the map order |
| Endpoints.LoadBalancerWithTwoPorts | pkg/catalog/catalog.go:324-330 | there is such a printed table for any two ports |
| Endpoints.ParsedIngressAddressInRange | pkg/catalog/catalog.go:308-314 | on every status, whatever text it was read from, the first host of the first ingress exists |
| Endpoints.PrintedIngressAddress | pkg/catalog/catalog.go:308-314 | for the status of a printed table of ingresses the address is the first printed host of the first row |
| Endpoints.PickNodeIP | pkg/catalog/catalog.go:370-380 | the internal address of the last node that has one, or else the external address of the last node that has one, or else nothing |
| Endpoints.LastPort | pkg/catalog/catalog.go:356-359 | the loop leaves some port of the map, or nothing if there is none |
| Endpoints.ExtractHAAddress | pkg/catalog/catalog.go:351-393 | nothing if a ClusterIP service lacks a cluster DNS name; otherwise the comma-joined parts of the handled services in order: service name, namespace and DNS name for ClusterIP, a node's address for NodePort, the external address for LoadBalancer, each with one of the service's ports |
| Endpoints.HAAddressDetermined | pkg/catalog/catalog.go:351-393 | the address is the same in all map orders if and only if it is emptied for want of a DNS name, or every service of a handled type offers at most one distinct port |
| Unordered.SearchDetermined | pkg/catalog/catalog.go:332-336 | an early-return search over a map is independent of the order if and only if all matches hold the same value |
| Values.ChartValues | pkg/catalog/catalog.go:247-274 | plan values override template values, in every iteration order |
| Values.GetChartValues | pkg/release/release.go:336-353 | the merged map has exactly the union of the keys, user parameters over plan values over template values |
| Values.InstallValues | pkg/release/release.go:42-68 | a template that cannot be rendered leads to an installation without any values |
| Values.InsertFails | vendor/k8s.io/helm/pkg/strvals/parser.go:167-180 | setting a path fails a type assertion exactly if a proper prefix of it holds a scalar |
| Values.InsertLookup | vendor/k8s.io/helm/pkg/strvals/parser.go:116-191 | setting a path stores the value there, removes what was below, and changes no other path |
| Values.ReadPlain | vendor/k8s.io/helm/pkg/strvals/parser.go:116-191 | for plain keys and values, parsing "key=value" sets the scalar that the characters of the value denote on the dotted path |
| Values.TypedExactly | vendor/k8s.io/helm/pkg/strvals/parser.go:322-340 | a text becomes true or false exactly for the letters of that word in any case, a number exactly for a 64-bit numeral that does not start with 0, and stays itself exactly otherwise |
| Values.TypedItoa | vendor/k8s.io/helm/pkg/strvals/parser.go:322-340 | every written 64-bit integer but 0 becomes that number |
| Values.ReadAssignments | vendor/k8s.io/helm/pkg/strvals/parser.go:95-191 | a comma-separated text of assignments with any characters, written with backslashes, sets them all in order; a comma that is not escaped starts another key |
| Values.ListSyntaxRead | vendor/k8s.io/helm/pkg/strvals/parser.go:128-140 | a bracket after a key and a brace before a value start a list |
| Values.UnusableAssignment | vendor/k8s.io/helm/pkg/strvals/parser.go:116-166 | a key without a value is malformed, an empty key is ignored |
| Values.ConvertValues | pkg/utils/utils.go:9-18 | the loop computes the fold of some iteration order; for plain keys of which none is a dotted prefix of another each path holds the scalar that its value's characters denote, and no other path holds any |
| Values.ValuesReadBack | pkg/utils/utils.go:9-18 | if no key is a dotted prefix of another, in every order walking any key's path returns the scalar that its value denotes |
| Values.OrderIndependence | pkg/utils/utils.go:9-18 | all iteration orders build the same tree if and only if no key is a proper dotted prefix of another |
| Values.TreesEqual | pkg/utils/utils.go:9-18 | trees without empty branches are determined by the scalars on their paths |
| Catalog.LookupOrderIndependence | pkg/catalog/catalog.go:228-240 | a plan lookup is independent of the map order if and only if all services that answer it give the same plan |
| Catalog.UniqueIdsDetermineLookup | pkg/catalog/catalog.go:228-240 | service ids that are unique up to case make every lookup independent of the order |
| Catalog.PlanFound | pkg/catalog/catalog.go:228-240 | in every order the lookup finds the first plan with the id in the first visited service that has both ids, and the zero plan if there is none |
| Catalog.SecondLookupAgrees | pkg/release/release.go:37-38 | looking up again by the found plan's own id, as the release layer does, finds the same plan |
| Catalog.SecondLookupAfterMiss | pkg/catalog/catalog.go:239 | a miss returns the zero plan, and stays a miss exactly if the service has no plan with an empty id |
| Catalog.UnknownPlanGetsServiceChart | pkg/release/release.go:37-52 | an installation for an unknown plan gets the own chart of a service with the requested id, and an error only if that names none; for an unknown service it ends in a run-time error |
| Catalog.KnownPlanGetsItsChart | pkg/release/release.go:297-306 | an installation of a plan the catalog has gets the plan's own chart, or else its service's, or else an error, in all orders |
| Catalog.NamespaceOrderIndependence | pkg/release/release.go:322-334 | the namespace is independent of the map order if and only if the deciding keys agree on the value |
| Catalog.NamespaceAnswer | pkg/release/release.go:322-334 | the namespace is the value of a key "namespace" up to case, or else "cf-" and the value of "organization_guid", or else nothing |
| Names.NameDefined | pkg/release/release.go:290-294 | naming fails exactly for unprefixed ids with fewer than 14 characters besides '-' and '_' |
| Names.NameIdempotent | pkg/release/release.go:283-295 | a release name is its own release name |
| Names.NameShape | pkg/release/release.go:283-295 | names of unprefixed ids have 19 characters, no capital, no '-' and no '_' |
| Names.NameLetters | pkg/release/release.go:283-295 | a prefixed id is its own name; the name of any other is "helmi" and its first 14 characters besides '-' and '_', in order, each kept or turned into its small letter |
| Names.NamesCollide | pkg/release/release.go:283-295 | two unprefixed ids share a name exactly when their first 14 characters besides '-' and '_' pair up, each equal or the other case of the same letter |
| Names.NameIgnoresCaseAndSeparators | pkg/release/release.go:283-295 | unprefixed ids that agree after deleting all '-' and '_' and ignoring case have the same name |
| Names.NameIgnoresCase | pkg/release/release.go:290 | unprefixed ids that differ only in case have the same name |
| Names.NameIgnoresSeparators | pkg/release/release.go:291-292 | unprefixed ids that differ only in '-' and '_' have the same name |
| Tiller.LookupExactly | pkg/helm/client.go:78-93 | a working lookup finds exactly the stored valid names, with their last revision, and says "not found" exactly for valid names that are not stored |
| Tiller.NameCharacters | vendor/k8s.io/helm/pkg/tiller/release_server.go:80 | the letters and digits of valid and of storable names, written out |
| Tiller.InstallExactly | vendor/k8s.io/helm/pkg/tiller/release_install.go:135-225 | granted exactly for a name that is short enough and not live when nothing fails; the store changes exactly if moreover the name can be stored and the request gets past its preparation, by one revision with the given namespace and values on top of the older ones |
| Tiller.InstallRecords | vendor/k8s.io/helm/pkg/tiller/release_install.go:135-225 | what an installation records, revision by revision, wherever it stops |
| Tiller.MatchesOrContains | vendor/k8s.io/helm/pkg/tiller/release_list.go:160-171 | a listing filter without dots is looked for literally; in general it matches at least where it is found |
| Tiller.MatchesSomewhere | vendor/k8s.io/helm/pkg/tiller/release_list.go:160-171 | a filter matches exactly where some part of the name agrees with it, dots standing for any character |
| Tiller.ShownExactly | pkg/helm/options.go:32-42 | the codes that a listing asks for |
| Tiller.UpgradeExactly | vendor/k8s.io/helm/pkg/tiller/release_update.go:72-143 | granted exactly when a revision is DEPLOYED and nothing fails; the number of DEPLOYED revisions stays the same and the new one keeps the namespace |
| Tiller.UpgradeRecords | vendor/k8s.io/helm/pkg/tiller/release_update.go:72-143 | what an upgrade records, revision by revision, wherever it stops |
| Tiller.PurgeExactly | vendor/k8s.io/helm/pkg/tiller/release_uninstall.go:33-128 | granted exactly for stored valid names when nothing fails, and then a lookup says "not found"; a failed one leaves everything, nothing, or the newest revisions with the last one marked |
| Tiller.PurgeRecords | vendor/k8s.io/helm/pkg/tiller/release_uninstall.go:55-128 | what a deletion leaves, revision by revision, wherever it stops |
| Tiller.ListingShowsOneExactly | pkg/helm/client.go:253-264 | a listing shows exactly one revision just when it would without the other releases, except in two stated cases |
| Tiller.ListedHalfway | vendor/k8s.io/helm/pkg/tiller/release_list.go:35-42 | an upgrade that fails half-way adds one to what a listing shows, unless the old revision was superseded already |
| Tiller.Server.InstallRelease | vendor/k8s.io/helm/pkg/tiller/release_install.go:135-225 | the stages in which Tiller records an installation end in the store and reply of the specification, wherever it stops |
| Tiller.Server.UpdateRelease | vendor/k8s.io/helm/pkg/tiller/release_update.go:33-69 | the same for the stages of an upgrade |
| Tiller.Server.DeleteRelease | vendor/k8s.io/helm/pkg/tiller/release_uninstall.go:55-128 | the same for marking the last revision and deleting all of them one by one |
| Lifecycle.StepFrame | pkg/broker/broker.go:137-268 | a step changes at most the history at its own release name and one handler's phase |
| Lifecycle.Isolation | pkg/broker/broker.go:137-268 | in every interleaving of any handlers and outside changes, a release's history ends up as if only its own events had happened, and its handlers get equally far |
| Lifecycle.ListingAnswerIsolated | pkg/helm/client.go:253-264 | when the listing that follows a refused upgrade is answered as it would be without other releases |
| Lifecycle.AnswersIsolated | pkg/broker/broker.go:137-268 | the answers are isolated as well in every run in which the name, as a filter, matches no other name in play |
| Lifecycle.GeneratedNamesMatch | pkg/release/release.go:283-295 | a generated name matches another one exactly if their kept characters agree wherever it has no dot |
| Lifecycle.GeneratedInstancesIsolated | pkg/release/release.go:283-295 | where all names in play are generated, an instance whose name has no dots is isolated, answers included |
| Lifecycle.AnswersNotIsolated | pkg/helm/client.go:253-264 | for every id of 14 letters and digits there is a run in which provisioning another instance turns an update's success into an error |
| Lifecycle.DottedAnswersNotIsolated | vendor/k8s.io/helm/pkg/tiller/release_list.go:160-171 | the same for generated names alone: an id with a dot in place of another id's character |
| Lifecycle.ProvisionsSeparated | pkg/broker/broker.go:144-170 | between two successful provisions of one release whose name can be stored, the release was purged or became FAILED or DELETED |
| Lifecycle.UnstorableProvisionedTwice | vendor/k8s.io/helm/pkg/tiller/release_server.go:336-344 | for every short enough name that cannot be stored there is a run with two successful provisions and nothing that frees the name |
| Lifecycle.WhatFrees | pkg/helm/options.go:10 | only a purge, an upgrade whose failure is recorded, or an outside change ends the life of a release |
| Lifecycle.RefusalsLeaveStore | pkg/broker/broker.go:214-220 | a handler that answers "already exists" or "does not exist" has changed nothing in any of its steps |
| Broker.Provision | pkg/broker/broker.go:137-173 | the request, run alone, equals the handler's steps |
| Broker.Update | pkg/helm/client.go:147-203 | the request, run alone, equals the handler's steps, including the listing after a refused upgrade |
| Broker.Deprovision | pkg/broker/broker.go:207-221 | the request, run alone, equals the handler's steps |
| Broker.LastOperation | pkg/broker/broker.go:270-305 | the request, run alone, with the cluster's text formatted, read and classified, equals the handler's steps |
| Broker.Bind | pkg/broker/broker.go:223-249 | the request, run alone, with the cluster's text formatted and read, equals the handler's steps |
| Broker.Unbind | pkg/broker/broker.go:252-268 | the request, run alone, equals the handler's steps |
| Broker.BindAnswer | pkg/broker/broker.go:223-249 | a bind changes nothing; it succeeds exactly if the release is found, its report can be read and the handler's own work ends well, and exactly when it crashes and when it is an error |
| Broker.UnbindAnswer | pkg/broker/broker.go:252-268 | an unbind changes nothing and succeeds exactly if the lookup finds the release or says "not found" |
| Broker.ProvisionAnswer | pkg/broker/broker.go:137-173 | which answer a provision gets, and that it asks for an installation even if its lookup fails |
| Broker.DeprovisionAnswer | pkg/broker/broker.go:207-221 | which answer a deprovision gets: "does not exist" exactly if its lookup says "not found", even by mistake, and otherwise the outcome of deleting |
| Broker.UpdateWithoutRelease | pkg/helm/client.go:169-176 | an update of a release that the lookup does not find is an error or a crash, and changes nothing |
| Broker.PollAnswers | pkg/broker/broker.go:270-305 | a poll changes nothing; what it is answered for every code, node count, deadline, report and lookup |
| Broker.AloneIsARun | pkg/broker/broker.go:137-305 | a whole request is a run of the interleaved system |
| Broker.ProvisionDeprovisionRestores | pkg/broker/broker.go:137-220 | on a free name, if both requests succeed the store is as before, whatever failed on the way |
| Broker.ProvisionRound | pkg/broker/broker.go:137-284 | for a name that can be stored: provisioning twice answers "already exists"; after deprovisioning, a second deprovision and a poll answer "does not exist" and provisioning works again |
| Broker.UnstorableNameUnrecorded | vendor/k8s.io/helm/pkg/storage/driver/cfgmaps.go:149-257 | an instance whose name cannot be stored is provisioned, recorded nowhere and can be provisioned again; deprovisioning and polling do not know it, or fail if the name does not fit Tiller's pattern |
| Broker.UnstorableNames | vendor/k8s.io/helm/pkg/storage/driver/cfgmaps.go:149-257 | there are ids of both kinds |
| Broker.GeneratedNameStorable | vendor/k8s.io/apimachinery/pkg/util/validation/validation.go:126-130 | which generated names can be stored |
| Broker.GeneratedNameFits | vendor/k8s.io/helm/pkg/tiller/release_server.go:80 | which generated names fit the pattern |
| Broker.UpdateAnswer | pkg/helm/client.go:189-202 | the update reports success exactly if the upgrade was granted or the listing shows exactly one revision |
| Broker.RefusedUpgradeReported | pkg/helm/client.go:189-202 | an upgrade without effect leaves the store unchanged and is reported as success exactly if the listing works and shows one revision |
| Broker.RefusedUpgradeReportedAsSuccess | pkg/helm/client.go:189-202 | so it is for a release with a single shown revision that is alone in its name, in particular for every update of one that is FAILED |
| Broker.HalfwayUpgradeReported | vendor/k8s.io/helm/pkg/tiller/release_update.go:252-293 | a half-way failure is reported as success exactly if the old revision was superseded already, the listing works and showed one revision before |
| Broker.UpdateReplacesValues | pkg/release/release.go:121 | with a DEPLOYED revision a working update with parameters adds a revision with exactly those values, and touches no other release |
| Broker.QueriesChangeNothing | pkg/broker/broker.go:223-305 | bind, unbind and poll change nothing; unbinding a missing instance succeeds and binding it fails |
| Broker.PollOfStored | pkg/broker/broker.go:286-304 | a poll of a stored release crashes exactly if its report cannot be read, tells one of the three states otherwise, and a wrong one exactly for a deployed release with nodes missing before the deadline |
| Polling.FlagsExclusive | pkg/helm/status.go:249-276 | at most one of deployed, deleted and deleting holds, and at least one flag is set |
| Polling.IntendedAnswer | pkg/broker/broker.go:286-304 | the intended answer is always one of the three states of section "Polling Last Operation" of Open Service Broker API v2.12, and which one |
| Polling.WrittenDiffersExactly | pkg/release/release.go:210-216 | the answer as written differs exactly when the release is not failed, not available, and deployed or deleted |
| Polling.WrittenAnswers | pkg/release/release.go:215 | as written a deployed release is never in progress, and exactly a deleted one with nodes missing that is not failed gets the empty answer |
| Polling.ReplyIsStatusOf | vendor/k8s.io/helm/pkg/tiller/release_status.go:66-71 | a DELETED or FAILED release comes without resources; the status is that of the text sent |
| Polling.ReplyDiffersExactly | pkg/release/release.go:210-216 | on Tiller's replies the answer differs exactly for deployed releases with nodes missing before the deadline, and is never empty |

## Left out

- HTTP routing, authentication, logging and start-up: plumbing.
- JSON, YAML, Go templates and generated credentials: parsed structures and rendered maps are inputs; the final YAML text of the values is not modelled.
- Chart download and repositories: whether the chart can be loaded is a choice of the environment in each step.
- Clock, environment variables and duration parsing: the times, the timeout and the cluster DNS name are arguments.
- Values.ReadPlain: list syntax (`[`, `{`) of `strvals` is a separate outcome without further meaning; keys and values with list syntax, or with escapes and commas as `Values.ReadAssignments` reads them, are outside the read-back theorems for maps.
- Text.ScanUnlines: the scanner's limit on the length of a line is not modelled, and widths count ASCII characters.
- Elastic.AlignAcross: vertical tabs and form feeds, which `text/tabwriter` treats specially, are not modelled.
- Tiller.Server.ListReleases: of the filter's regular expression only dots are modelled, as no other character of a valid name is special; paging is not.
- Tiller.Server.InstallRelease: each request is atomic and a reply is either an error or a release; records are lost only under names that Kubernetes rejects, and a limit on the length of histories is not modelled.
- Tiller.Server.UpdateRelease: of several DEPLOYED revisions the oldest is taken, which is the storage's first for fewer than ten revisions.
- Broker.LastOperation: the lookup that only feeds a log message is left out.
- `lastResource`, assigned but never used by the reader, has no counterpart.
- `extractAddress`, `extractHostname`, `ingressPort`, `getChartVersion`, `Services` and `Validate`: plain branches and field copies.
- Credentials of `Bind`: a bind is a lookup and the reading of a report in the model, since it changes nothing.
