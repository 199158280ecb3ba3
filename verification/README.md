# Network enumerator: a verified model

This project models the parts of the network enumerator whose correctness spans many calls, and
proves what they promise. Results are stated for all inputs, all schedules or all runs; the scan cycle is the
one sequential protocol, it handles its hosts one at a time in any order.

* **The inventory.** `Tables` gives the four tables as values and what one mutex-guarded store call does
  to them; `Store` is the store itself, a class whose methods are proved to do exactly that. `Runs` puts
  calls in any order. `Lifecycle`, `PortScan`, `Imports`, `ImportLaws`, `ImportIdempotence`, `RuleImport`,
  `RoundTrip`, `SubnetResolution`, `Enrichment`, `CycleRows` and `NmapCycle` prove properties of whole runs, imports,
  exports and scan cycles.
* **The concurrency.** `Reflag`, `Icmp`, `Triggers`, `DeepScan`, `FanOut` and `WorkerPool` are step
  relations with unboundedly many threads; their theorems hold in every interleaving.
* **The arithmetic.** `Ipv4` expands prefixes; `BucketTree` and `GraphSync` are the octet-stepped host
  graph, with address masks as 32-bit words.
* **The pure algorithms.** `Repulsion` (spatial hash against all pairs), `Drawio` (placement), `Csv`
  (writer against a reader for section 2 of RFC 4180), `Version` and `Risk`.
* `Listings`, `Counting`, `Folding`, `Text`, `Options` and `NmapOutput` hold the vocabulary shared by the others.

`dafny verify dfyconfig.toml` checks all of it.

## Where the code and its comments differ

The model follows the code. Each difference comes with its exact condition and, where the code fails a
promise, an input or a run on which it does.

* `Ping` (`internal/discovery/icmp.go:14-29`): a true result means the reply was *matched* after the ping
  registered. The reply may have been *read* earlier, in exactly one situation: the reader was between
  reading it and looking it up as the ping registered (`Icmp.StaleIffReaderHolds`); `Icmp.EarlyReplyGoesStale`
  is such a run.
* `waiters` (`internal/discovery/icmp.go:26-28`): sequence numbers are unique only while no two registered
  pings are a multiple of 65536 starts apart (`Icmp.ExactIffNoCollision`); `Icmp.CrowdCollides` is a run in
  which two are.
* Acknowledgements (`internal/store/hosts.go:204-206`): ports that close, or that open again, do not clear one
  (`PortScan.ScanOutcome`), nor do imported ports (`Reflag.ImportEscapes`, with the run
  `Reflag.ImportEscapesHere`). One can be taken back on account
  of an older port if and only if it is given between a scan's two store calls (`Reflag.LateAckIsTakenBack`),
  as can happen to any host with a new port (`Reflag.AckBetweenCallsIsLost`).
* `importNetworkMap` (`internal/api/export.go:138-142`): it overwrites what a live scan stored of a port. A
  stored port is left alone if and only if no entry names it, or it is open with their last service and their
  last non-empty banner and version already (`ImportIdempotence.ImportOverwritesPorts`, with the input
  `ImportIdempotence.ImportCanOverwrite`); text of hosts is only filled in (`ImportIdempotence.ImportOnlyAdds`).
* The nmap enrichment (`internal/discovery/scanner.go:811-814`) overwrites a MAC or vendor the scanner already
  has, if and only if nmap's last one is another (`Enrichment.EnrichmentOverwritesHosts`, with the input
  `Enrichment.EnrichmentCanOverwrite`).
* `scanSubnetNmap` (`internal/discovery/scanner.go:684-685`): nmap does decide what is open. A probed port is
  open after a cycle if and only if the scan found it open or nmap reported it
  (`CycleRows.OpenIffFoundOrReported`); `CycleRows.NmapCanReopen` is a cycle in which it opens a port that the
  scan of the same cycle found closed.
* `unseenIPStrings` (`internal/discovery/scanner.go:422-423`) asks for a negative capacity, and the process
  crashes, if and only if more hosts answered than the capped expansion of the prefix has addresses
  (`NmapCycle.DiscoverAliveHostsAllSources`). netdiscover sweeps the whole prefix, so a proxy that answers ARP
  for a /16 is enough (`CycleRows.ProxyArpOnSixteen`); it takes a find outside the expansion
  (`CycleRows.FindsInRange`).
* `importRiskRules` (`internal/api/systemexport.go:179-187`): creating a rule turns an empty severity into
  "warning", updating one does not, so a second import repeats the first only if no identity new to the
  store ends in an empty severity (`RuleImport.RulesTwiceIsOnce`, with the input
  `RuleImport.RulesTwiceCanDiffer`); a third always repeats the second.
* `SweepClosedPorts` (`internal/store/ports.go:57-65`) goes by number alone, so a TCP scan can close, but
  never open, a row of another protocol (`PortScan.ScanOutcome`).
* The host graph (`web/static/app.js:442-480`): hosts whose address is not IPv4 share one bucket per subnet,
  which is linked to itself when it is opened under a prefix below 16 (`GraphSync.ForestIffSafe`, with the
  input `GraphSync.NullBucketInItself`).

## Model

| member | source | states |
|---|---|---|
| Stores.Store.UpsertAutoSubnet | internal/store/subnets.go:46-72 | the CIDR's row exists afterwards, created exactly if it was missing; an existing row changes only by getting a name it lacked |
| Stores.Store.SetSubnetHidden | internal/store/subnets.go:107-112 | sets one flag of the row with that id and nothing else |
| Stores.Store.SetSubnetEnabled | internal/store/subnets.go:118-123 | sets one flag of the row with that id and nothing else |
| Stores.Store.UpsertHost | internal/store/hosts.go:24-60 | the host is up with no misses, non-empty arguments overwrite its text; reports the row's id and whether it is new |
| Stores.Store.UpsertUnconfirmedHost | internal/store/hosts.go:72-96 | a new host is unknown; an existing one keeps its status and only gets a hostname it lacked |
| Stores.Store.ImportHost | internal/store/hosts.go:120-161 | a new host is unknown with the imported text; an existing one only has its empty fields filled |
| Stores.Store.ConfirmHostUp | internal/store/hosts.go:101-106 | the host with that id is up with no misses, all other rows as before |
| Stores.Store.AcknowledgeHost | internal/store/hosts.go:206-211 | acknowledges exactly the host with that id |
| Stores.Store.ClearAcknowledgementIfSet | internal/store/hosts.go:251-263 | clears the host's acknowledgement and returns whether there was one |
| Stores.Store.SweepMissingHosts | internal/store/hosts.go:284-327 | one more miss for every unseen host of the subnet, down at the threshold only from up; returns, once each, exactly the hosts it took down |
| Stores.Store.UpsertPort | internal/store/ports.go:22-55 | the row is open with the given service; empty banner, product and version keep what was stored; true exactly if the row is new |
| Stores.Store.SweepClosedPorts | internal/store/ports.go:65-99 | closes exactly the host's open rows whose number was probed and not found, whatever their protocol, and lists each once |
| Stores.Store.CreateRiskRule | internal/store/risk.go:133-146 | adds one row under a fresh id, an empty severity becoming "warning" |
| Stores.Store.UpdateRiskRule | internal/store/risk.go:152-187 | sets exactly the fields that are given, whichever they are, in the row with that id, an empty severity included |
| Runs.StepSound | internal/store/db.go:19-64 | every store call keeps ids unique and every foreign key resolved, cascades included |
| Runs.RunsSound | internal/store/db.go:19-64 | so every inventory reachable from the empty one is sound |
| Lifecycle.StatusIsHistory | internal/store/hosts.go:284-327 | over any run, a host's miss count is its missed sweeps since the latest live evidence, and its status is unknown without such evidence, up below the threshold and down from it on |
| Lifecycle.NeverUnknownAgain | internal/store/hosts.go:98-106 | over any run, a host that has been up or down is never unknown again |
| Lifecycle.SweepReportsTransitions | internal/discovery/scanner.go:932-948 | a sweep reports a host if and only if it takes it from up to down, which is precisely on its threshold-th miss |
| Lifecycle.ReportedOncePerDescent | internal/discovery/scanner.go:932-948 | over any run a host is reported exactly as often as it goes from up to down |
| PortScan.ScanPortRange | internal/discovery/scanner.go:1117-1149 | records the open ports, then closes the rest and returns the open set; announces exactly the numbers whose TCP row is new, once each, raises the scanned host for such a number only, and reports a number as closed if and only if a row of it went from open to closed |
| PortScan.ScanOutcome | internal/discovery/scanner.go:1114-1149 | a probed number's TCP row is open iff found open; other protocols' rows can only be closed; rows of other numbers and hosts are untouched and none is deleted; of the hosts only the scanned one's acknowledgement changes, cleared iff a port without a row was found |
| PortScan.ScanRows | internal/discovery/scanner.go:1117-1149 | every row of the scanned host ends as the fold of the probes that found its number open, and closed if it was probed in vain; every other row is untouched |
| PortScan.RaisedOnce | internal/discovery/scanner.go:1187-1201 | a scan raises its host as a priority once if it was acknowledged and a new port was found, and otherwise never |
| PortScan.ScheduleIrrelevant | internal/discovery/scanner.go:1117-1140 | the completion order of the probes does not affect the tables |
| PortScan.DeepFindingsSurvive | internal/discovery/scanner.go:1062-1067 | any number of scans leaves a row whose number none of them probes exactly as it was |
| PortScan.TextNeverBlanked | internal/store/ports.go:22-55 | whatever operations run, a surviving port row never loses a non-empty banner, product or version |
| PortScan.PortLostWithHost | internal/store/db.go:50-64 | a port row disappears only together with its host, whose id never comes back |
| Imports.RunImportSegments | internal/api/systemexport.go:229-248 | the loop, with or without flags, is the fold of its steps and returns the id of every usable segment |
| Imports.RunImportHosts | internal/api/export.go:207-225 | the loop skips unusable entries; the number of new hosts it returns is by how much the table of hosts grew |
| Imports.RunImportPorts | internal/api/export.go:230-250 | the loop skips closed and non-positive ports; the number of new ports it returns is by how much the table of ports grew |
| Imports.RunImportDocument | internal/api/systemexport.go:121-163 | segments, then hosts, then ports, each resolving ids of the one before; the two counts it returns are by how much the tables grew |
| Imports.SegmentIdsResolve | internal/api/export.go:188-201 | every id the segment import hands on belongs to a stored subnet |
| ImportLaws.SegmentLaw | internal/api/systemexport.go:229-248 | exactly the CIDRs that parse are stored; a stored subnet keeps its id, origin, interface and a name it has; only the system form touches the flags, which are then those of the last segment with that CIDR |
| ImportLaws.NameLaw | internal/api/export.go:184-201 | a subnet without a name gets that of the first segment that has one |
| ImportLaws.HostLaw | internal/api/export.go:207-225 | exactly the hosts that an entry with a known segment and a parsable address names are stored; a new one is unknown with the notes of its first entry; an empty text is filled by the first entry that has it, and nothing else of a stored host changes |
| ImportLaws.PortLaw | internal/api/export.go:230-250 | exactly the ports that an open entry with a positive number names are opened, TCP where the protocol is left out, under the service of the last such entry and the banner and version of the last that has one; the product and all other rows stay |
| ImportIdempotence.SegmentStepIsPatch | internal/api/systemexport.go:229-248 | importing one segment rewrites at most the one row under its CIDR |
| ImportIdempotence.FirstSegments | internal/api/systemexport.go:229-248 | after the first import no segment has anything left to change, and the returned ids are the final ones |
| ImportIdempotence.FirstHosts | internal/api/export.go:207-225 | after the first import every entry's host exists with nothing left to fill |
| ImportIdempotence.FirstPorts | internal/api/export.go:230-250 | after the first import every usable entry's port exists with the last service and last non-empty texts |
| ImportIdempotence.ReplaySegments | internal/api/systemexport.go:229-248 | replaying segments that all exist patches each row by the document's first name and last flags |
| ImportIdempotence.ReplayHosts | internal/api/export.go:207-225 | replaying hosts that all exist fills each row from the first non-empty entry and counts none as new |
| ImportIdempotence.ReplayPorts | internal/api/export.go:230-250 | replaying ports that all exist leaves the last service and last non-empty texts and counts none as new |
| ImportIdempotence.AbsorbedIsNoOp | internal/api/systemexport.go:121-163 | a document with nothing left to change changes nothing and adds nothing |
| ImportIdempotence.ImportTwiceIsOnce | internal/api/systemexport.go:121-163 | for any document, duplicates and conflicts included, a second import changes no row, adds nothing and resolves the same ids, in both import forms |
| ImportIdempotence.ImportOnlyAdds | internal/store/hosts.go:108-161 | an import takes no host up or down, overwrites no non-empty text of a host, closes or loses no port; what it brings is unknown hosts and open ports |
| ImportIdempotence.ImportOverwritesPorts | internal/api/export.go:230-250 | for any document and store, a port row exists afterwards iff it did or an entry names it, and is its old or the blank row re-opened with the last service and the last non-empty banner and version of the entries that name it; a stored row is unchanged iff no entry names it or it was open and agreed with all of these |
| ImportIdempotence.ImportCanOverwrite | internal/store/ports.go:32-46 | a sound store and a document whose import re-opens a scanned port and replaces its service, banner and version |
| RuleImport.RunImportRules | internal/api/systemexport.go:188-223 | an entry that equals no stored rule in port, service and threshold becomes a row of its own and changes no stored row; a stored rule changes only if some entry equals it in all three, and then only in caption, severity and state; created and updated count the two kinds of entries |
| RuleImport.ImportMerges | internal/api/systemexport.go:188-223 | stored rules take the document's last word on their identity, the latest of those that share one; each entry of a new identity, duplicates included, becomes a row of its own in document order, and there are no other new rows; both counters are exact |
| RuleImport.RulesTwiceIsOnce | internal/api/systemexport.go:188-223 | a second import creates nothing, and changes nothing if and only if no identity new to the store ends in an empty severity |
| RuleImport.RulesTwiceCanDiffer | internal/api/systemexport.go:188-223 | a rule with an empty severity, imported twice into an empty table, is "warning" after the first import and empty after the second |
| RuleImport.RulesSettleBySecondImport | internal/store/risk.go:133-187 | a third import always repeats the second |
| Text.SegmentExportIdInjective | internal/api/export.go:61 | two subnets never share an export id |
| Text.HostExportIdInjective | internal/api/export.go:62 | two hosts never share an export id |
| RoundTrip.RunExportSegments | internal/api/systemexport.go:58-75 | one entry per stored subnet |
| RoundTrip.RunExportPorts | internal/api/systemexport.go:76-100 | appends one entry per port of the host |
| RoundTrip.RunExport | internal/api/systemexport.go:48-112 | the document has exactly one entry for every subnet, host and port of the store, with its columns and under the ids built from its own; a port that is not open is marked as closed, and a version that is not known is replaced by the product |
| RoundTrip.NotesKept | internal/api/export.go:69-78 | the exported notes begin with the user's, are those alone without findings, and hold every finding in what follows |
| RoundTrip.ExportThenImport | internal/api/systemexport.go:121-163 | export, then import into a store without subnets, hosts or ports, is an isomorphism: same subnets with name and flags, same hosts with their text under the corresponding subnet, unknown, notes extended only by findings, and exactly the open ports |
| RoundTrip.NothingLost | internal/api/export.go:252-266 | when every stored text parses, only closed ports and non-positive numbers do not come back |
| RoundTrip.EveryInventoryComesBack | internal/api/systemexport.go:48-163 | both hold of every inventory that some run of store calls reaches |
| Reflag.RecordOpenPort | internal/discovery/scanner.go:1171-1201 | run alone: the port is stored; a new one is announced once, and then an acknowledged host is cleared and raised again; a known port, or one of an unknown host, raises nothing |
| Reflag.AloneIsRecorded | internal/discovery/scanner.go:1171-1201 | in the interleaved model, a thread that nothing comes between does to the tables just that |
| Reflag.AlwaysGuarded | internal/discovery/scanner.go:1171-1201 | in every interleaving with users, imports and deletions, a host is acknowledged beside a newer scanned port only while that port's own thread has its clear step to run |
| Reflag.AtRestNothingUnreviewed | internal/discovery/scanner.go:1187-1201 | with no call in flight, an acknowledged host was acknowledged after every port a scan found on it |
| Reflag.ImportEscapes | internal/api/export.go:230-250 | an imported port always leaves its acknowledged host acknowledged |
| Reflag.ImportEscapesHere | internal/api/export.go:230-250 | a run of four calls that ends so: subnet, host, acknowledgement, imported port |
| Reflag.LateAckIsTakenBack | internal/discovery/scanner.go:1178-1201 | in every interleaving, an acknowledgement can later be taken back by a thread whose port is older than it if and only if, when it is made, that thread is between its new row and its clear |
| Reflag.AckBetweenCallsIsLost | internal/discovery/scanner.go:1178-1201 | after any run, a thread that has just recorded a new port of a host can take back an acknowledgement of that host made then |
| Reflag.AckEndsOnlyBy | internal/discovery/scanner.go:1178-1201 | an acknowledgement that stands ends only by an explicit un-acknowledge, the host's removal, the clear of a port scanned since, or a thread that was already between its two calls when it was made |
| Reflag.OneReflagPerAck | internal/discovery/scanner.go:1191-1201 | a host's priority events never outnumber its acknowledge requests, and are one fewer while it is acknowledged |
| Icmp.TrueMeansAnswered | internal/discovery/icmp.go:76-163 | in every interleaving `Ping` returns true only on an echo reply that has its sequence number and source and, on a raw socket, the identifier of the process, and that was matched after it registered |
| Icmp.AnswerGetsThrough | internal/discovery/icmp.go:86-163 | from any reachable state with the ping waiting, its entry in the table and the reader idle, such a reply, read, looked up and delivered, makes it return true |
| Icmp.PingsAsBegun | internal/discovery/icmp.go:119-129 | the n-th ping waits for the address it was started for under the number n modulo 65536 |
| Icmp.NoAnswerIsFalse | internal/discovery/icmp.go:137-163 | a ping whose request cannot be written, or that gives up waiting, returns false whatever happens afterwards |
| Icmp.StaleIffReaderHolds | internal/discovery/icmp.go:99-111 | it can return true on a reply read before it registered if and only if the reader holds such a reply, not yet looked up, as it registers |
| Icmp.EarlyReplyGoesStale | internal/discovery/icmp.go:99-111 | a run of two actions that reaches such a state |
| Icmp.RepliesNotShared | internal/discovery/icmp.go:100-110 | two pings that return true do so on two different replies |
| Icmp.TableExact | internal/discovery/icmp.go:126-136 | while every outstanding ping is among the last 65536 started, the table has exactly one own entry per registered ping, across wraps of the 32-bit counter |
| Icmp.DeleteRemovesOwn | internal/discovery/icmp.go:132-136 | and then a deferred delete removes its own entry and no other |
| Icmp.ExactIffNoCollision | internal/discovery/icmp.go:126-131 | registering keeps the table exact if and only if no registered ping is a multiple of 65536 starts away |
| Icmp.CrowdCollides | internal/discovery/icmp.go:126-131 | 65536 pings begun and registered are an exact table that the next one's registration breaks |
| Triggers.NoRequestLost | internal/discovery/scanner.go:108-196 | in every interleaving a request not yet followed by the start of a cycle of its mode fills that mode's channel, or the loop has taken it and is about to start that cycle |
| Triggers.NoCycleUnasked | internal/discovery/scanner.go:169-196 | forced cycles started or on their way never outnumber the requests for them |
| Triggers.OpensRegular | internal/discovery/scanner.go:169-170 | the first cycle is a regular one that nobody has to ask for, and nothing can keep it from starting |
| Triggers.LoopComesRound | internal/discovery/scanner.go:169-196 | unless stopped, the loop always comes back to its select, having started just the cycle it was about to, and forgets no request meanwhile |
| Triggers.RequestIsServed | internal/discovery/scanner.go:173-194 | after any run that has not stopped the loop, an unanswered request is answered by at most four steps of the loop alone |
| Triggers.TickStartsRegular | internal/discovery/scanner.go:177-178 | the interval timer makes the selecting loop start a regular cycle and takes no request |
| Triggers.StopIsFinal | internal/discovery/scanner.go:174-176 | when the context is done the selecting loop can stop, whatever is requested, and then no cycle starts again |
| Triggers.RequestCanBeServed | internal/discovery/scanner.go:173-194 | an unanswered request can be taken as soon as the loop selects, and starting it answers it |
| DeepScan.AlwaysGuarded | internal/discovery/scanner.go:1091-1112 | in every interleaving at most one deep scan per host holds the guard, the guard names exactly those hosts, and a host's started and finished events strictly alternate |
| DeepScan.GuardComesBack | internal/discovery/scanner.go:1092-1097 | a caller is refused if and only if a scan of that host is in progress |
| FanOut.AnswerIsExact | internal/discovery/scanner.go:1001-1043 | for any number of probes and any schedule, the answer is true if and only if some probe is positive |
| FanOut.SchedulesEnd | internal/discovery/scanner.go:1001-1043 | no schedule is longer than four actions a probe and four more |
| FanOut.NothingLeaks | internal/discovery/scanner.go:1001-1043 | a schedule that cannot go on has answered, and every goroutine is gone |
| WorkerPool.PoolIsExact | internal/discovery/scanner.go:621-640 | when the pool returns, its result lists exactly the positive items once each; never more workers than slots |
| WorkerPool.StepDescends | internal/discovery/scanner.go:625-639 | every action of a pool uses up a bounded supply of work |
| WorkerPool.NeverStuck | internal/discovery/scanner.go:623-639 | with at least one slot a pool stops only when it has returned |
| WorkerPool.ZeroCapacityBlocks | internal/discovery/scanner.go:623-628 | with none it never starts its first item |
| NmapCycle.UnseenIPStrings | internal/discovery/scanner.go:422-430 | lists each address that was not seen once; it panics if and only if more were seen than exist |
| NmapCycle.DiscoverAliveHosts | internal/discovery/scanner.go:615-642 | the responders among the addresses of the expanded prefix, each once, or nothing if it is not an IPv4 prefix |
| NmapCycle.ScanHit | internal/discovery/scanner.go:484-509 | a PTR hit's row gets at most a hostname, or is new and unknown; its ports are scanned once; it is confirmed up exactly on an open port and loses its acknowledgement exactly to a new port row; no other host row changes |
| NmapCycle.ScanUnconfirmedByDNS | internal/discovery/scanner.go:470-513 | the scans it runs are of the row of every hit among the candidates, each once, and of nothing else; exactly the hits with an open port are confirmed |
| NmapCycle.DiscoverAliveHostsAllSources | internal/discovery/scanner.go:651-679 | the list is duplicate-free and is the responders, the ARP finds and the confirmed hits; it crashes, with nothing written, if and only if more hosts answered than the capped expansion has addresses |
| NmapCycle.FoldDNSConfirmed | internal/discovery/scanner.go:588-605 | a confirmed hit gets at most the MAC of the ARP table; it is not scanned again |
| NmapCycle.ScanLiveHost | internal/discovery/scanner.go:749-780 | a live host is up with no misses and the texts heard, its port rows are as the scan leaves them, and no other row changes |
| NmapCycle.ScanSubnetNmap | internal/discovery/scanner.go:691-827 | does nothing but crash if and only if discovery does; otherwise the port scans of the cycle, as the scanner itself records them, are one each of the rows of the live hosts and the PTR hits; the hosts reported down are exactly those on their last allowed miss; and every row of every table is given, with enrichment or without it |
| NmapCycle.Enrich | internal/discovery/scanner.go:805-823 | runs exactly the fold of nmap's reports, after which every row is given by the cycle before it and the reports; it scans nothing |
| CycleRows.WhoIsAlive | internal/discovery/scanner.go:651-679 | the live hosts are the addresses of the range that answer a probe, the ARP finds, and the others with a PTR record and an open port; besides them only the others with a PTR record are scanned |
| CycleRows.WhenEnriched | internal/discovery/scanner.go:788-804 | nmap's reports count exactly if it runs and some live host has an open port |
| CycleRows.CycleTexts | internal/discovery/scanner.go:741-780 | a live host that nmap does not report ends with the MAC of the ARP table, or else of the ARP find, or else its own; with the vendor of the find or its own; with the name of the reverse lookup or its own; its notes and origin stay |
| CycleRows.CycleFoundPort | internal/discovery/scanner.go:1117-1140 | a port the scan found open ends open under the guessed service with the banner that was read or else the stored one; product and version stay |
| CycleRows.AddressesDistinct | internal/discovery/iprange.go:36-52 | the addresses of an expanded prefix print differently |
| CycleRows.FindsInRange | internal/discovery/scanner.go:422-423 | no crash while every ARP find is among the expanded addresses |
| CycleRows.ProxyArpCrowds | internal/discovery/scanner.go:422-423 | a crash whenever all usable addresses of a prefix answer ARP and are more than the cap |
| CycleRows.ProxyArpOnSixteen | internal/discovery/iprange.go:16 | in particular for a /16 under the default cap |
| CycleRows.CycleLeavesAlone | internal/discovery/scanner.go:691-827 | a cycle leaves alone the other tables, the hosts of other subnets, and every port row whose host it did not scan or whose number it neither probed nor had reported; no row is lost; the subnet's hosts it did not scan are only one miss further |
| CycleRows.OpenIffFoundOrReported | internal/discovery/scanner.go:680-690 | after a cycle a probed TCP port is open if and only if the scan found it open or nmap reported it |
| CycleRows.NmapCanReopen | internal/discovery/scanner.go:684-685 | a cycle that ends with a port open that its own scan found closed |
| CycleRows.CycleStatus | internal/discovery/scanner.go:784-786 | live hosts are up with no misses, the subnet's others have status and misses as one more miss leaves them, and new ones among those are unknown |
| CycleRows.CycleAcks | internal/discovery/scanner.go:1187-1201 | over a cycle, enrichment included, a host keeps its acknowledgement if and only if it gets no new port row |
| Enrichment.RunEnrichment | internal/discovery/scanner.go:805-823 | the loops over hosts and ports, skipping hosts the cycle did not record, are the fold of their steps |
| Enrichment.EnrichmentDetails | internal/discovery/scanner.go:805-823 | every reported port of a recorded host ends open with its last service and its last non-empty banner, product and version, or what the row had; no other row changes |
| Enrichment.EnrichmentHosts | internal/discovery/scanner.go:805-823 | a recorded live host ends with the last non-empty MAC and vendor reported and without its acknowledgement exactly if it got a new port row; no other host row changes |
| Enrichment.ReportedOnce | internal/discovery/scanner.go:818-821 | a port that is reported once ends open under the reported service, with each reported text that is not empty and the stored one otherwise |
| Enrichment.LastSighting | internal/discovery/scanner.go:811-814 | the MAC and the vendor that count are those of the last report of the address that has one |
| Enrichment.TouchedIffReported | internal/discovery/scanner.go:818-821 | the reports write a port row if and only if one of them, of a recorded host, names it |
| Enrichment.EnrichmentOverwritesHosts | internal/discovery/scanner.go:811-818 | a host ends with the last non-empty MAC and vendor reported for it, or else its own; text it had is kept iff nothing else was last reported |
| Enrichment.EnrichmentCanOverwrite | internal/store/hosts.go:24-45 | one report that replaces a stored MAC |
| Ipv4.AlignedFits | internal/discovery/iprange.go:36-47 | an aligned block never runs past the last 32-bit address |
| Ipv4.ExpandIPv4 | internal/discovery/iprange.go:21-52 | the loop, with 32-bit addition and an unsigned cap, yields exactly the first usable addresses of the block in order, up to the cap |
| Ipv4.ExpansionIsExact | internal/discovery/iprange.go:18-52 | the result ascends strictly, lies in the block, omits network and broadcast exactly with two or more host bits, and is cut only by the cap |
| Ipv4.PointToPoint | internal/discovery/iprange.go:39 | a /31 yields both its addresses and a /32 its only one (section 2.1 of RFC 3021) |
| SubnetResolution.SubnetContaining | internal/api/dnsrecon.go:116-127 | finds a subnet if and only if a listed one contains the address, and then the first such in the list |
| SubnetResolution.ResolveSubnetFor | internal/api/nmapimport.go:104-115 | the id returned is that of a stored subnet containing the address; one is created exactly if none did |
| SubnetResolution.Slash24Text | internal/api/dnsrecon.go:129-142 | the subnet created is named by the first three octets, a zero and the prefix length 24 |
| SubnetResolution.CoveredNow | internal/api/dnsrecon.go:67-73 | during an import an address is covered iff it was before or its /24 has been created |
| SubnetResolution.ImportDNSReconAddresses | internal/api/dnsrecon.go:74-112 | every usable address ends on a subnet containing it, with a row that is as it was but for a name it lacked, or new, unknown and named; all other host rows and the ports stay; the subnets created are the distinct /24s of the addresses outside all initial ones, one each, automatic and without a name; all three counters are exact |
| SubnetResolution.CreatedRegardlessOfOrder | internal/api/dnsrecon.go:67-81 | which subnets are created does not depend on the processing order |
| SubnetResolution.ImportNmapPorts | internal/api/nmapimport.go:119-130 | every port is open afterwards, with the texts listed for it or else the stored ones; rows of other ports are untouched; the count of new ones is exact |
| SubnetResolution.ImportNmapHosts | internal/api/nmapimport.go:68-98 | every imported host is up on a subnet containing it with its ports open and, reported once, with the texts reported or else its own; no host or port row is lost, none is closed, and hosts that are not in the report are untouched; created subnets and counters as for dnsrecon |
| Version.VersionNumbers | internal/store/version.go:33-53 | the loop yields the runs of digits as numbers, saturating at the largest int |
| Version.VersionLess | internal/store/version.go:16-31 | true if and only if the first differing component, missing ones being zero, is smaller |
| Version.StrictWeakOrder | internal/store/version.go:8-31 | irreflexive, transitive, and incomparability is equality up to trailing zeros |
| Version.NumbersOfDotted | internal/store/version.go:33-53 | the parser reads back decimals of any size joined by any separator without digits, those beyond the largest int as the largest int |
| Version.QuadText | internal/discovery/iprange.go:46-49 | an address prints as its four octets in decimal, the highest first |
| Version.TrailingZeros | internal/store/version.go:13 | appending zero components gives the same version |
| Version.QuadInjective | internal/discovery/iprange.go:46-49 | different addresses print differently |
| Risk.CheckRule | internal/store/hosts.go:443-467 | a rule fires on an open port if and only if it is on, about this number and service, and any threshold is above the detected version |
| Risk.RiskForPorts | internal/store/hosts.go:435-477 | the level is "critical" if some open port matches a critical rule, or else "warning", or else "info", or else empty, with one reason per matching pair in order |
| Risk.OrderIrrelevant | internal/store/hosts.go:432-477 | permuting ports and rules changes neither the level nor the reasons as a multiset |
| Risk.UnratedIffNoneRanks | internal/store/hosts.go:436-473 | no level if and only if no matching rule has a known severity; with known severities, if and only if no reasons |
| Risk.RaisingThresholdKeepsMatches | internal/store/hosts.go:459-466 | a threshold that is not older never drops a version-gated match |
| BucketTree.NextBucketPrefix | web/static/app.js:81-84 | the least octet boundary above any prefix below 24 |
| BucketTree.MasksNest | web/static/app.js:87-92 | masking by a longer octet prefix and then a shorter one is masking by the shorter |
| BucketTree.NextTreeLevel | web/static/app.js:99-109 | partitions the hosts by their bucket, each bucket listed once in order of appearance |
| BucketTree.ShownSharesBits | web/static/app.js:442-480 | a bucket above a host has the host's leading bits and a longer prefix than its parent |
| BucketTree.WayLaw | web/static/app.js:442-480 | below a prefix of less than 24 a host shows those of its one-, two- and three-octet buckets that are longer than the prefix and under open ones only, and itself if all are open; under any other prefix it is shown right away |
| BucketTree.LinkLaw | web/static/app.js:442-480 | its links go from the subnet to the first of these and from each to the next |
| BucketTree.NullWayLaw | web/static/app.js:105 | a host without an IPv4 address is below the one null bucket, at whatever depth |
| BucketTree.SharedKeySharesGroup | web/static/app.js:466-479 | hosts that meet in a lower bucket are in one bucket at every level above it |
| BucketTree.Graph.LayoutLevel | web/static/app.js:449-480 | shows exactly the keys on its hosts' ways, counts the hosts below each bucket, adds exactly their links, and terminates |
| GraphSync.Sync | web/static/app.js:484-525 | the graph holds exactly the visible keys, each with its host count, and exactly the links of the hosts' ways |
| GraphSync.HostVisible | web/static/app.js:442-525 | a host with an address is drawn if and only if its subnet is open and so is each of its octet buckets longer than the subnet's prefix |
| GraphSync.BucketHolds | web/static/app.js:466-479 | a drawn bucket counts exactly the hosts of its subnet whose address has its octets |
| GraphSync.ExpandedIffLinked | web/static/app.js:466-512 | links lead down from a subnet or bucket exactly if it is marked as expanded and counts a host |
| GraphSync.NoHostLost | web/static/app.js:442-525 | for any expanded and collapsed sets, visible hosts plus counts of closed buckets and collapsed subnets is the number of hosts |
| GraphSync.NullBucketInItself | web/static/app.js:466-479 | one host without an IPv4 address under a /8 whose null bucket is open gives a bucket linked to itself |
| GraphSync.ForestIffSafe | web/static/app.js:466-479 | the links form a forest, one parent per node, if and only if no host without an IPv4 address sits under an open null bucket of a subnet with prefix below 16 |
| Repulsion.InteractingIsNear | web/static/app.js:550-553 | two nodes close enough to interact are in the same or neighbouring cells |
| Repulsion.OncePerUnorderedPair | web/static/app.js:569 | each interacting unordered pair is counted under exactly one order of its keys |
| Repulsion.LessIsLexicographic | web/static/app.js:569 | that order is the lexicographic one |
| Repulsion.Repel | web/static/app.js:553-586 | the grid loop visits every interacting pair exactly once and accumulates the velocities of the loop over all pairs; pinned nodes keep their velocity, and of two nodes that interact each unpinned one gains speed away from the other |
| Repulsion.PushesApart | web/static/app.js:576-581 | of two nodes closer than their radii and 24 more, or 70 if one is wide, the first is pushed straight away from the second by 0.06 of what is missing |
| Repulsion.PushesCoinciding | web/static/app.js:570-581 | nodes that coincide are pushed along the jitter as if they were a tenth apart |
| Repulsion.PinnedStay | web/static/app.js:580-581 | pinned nodes keep their velocity |
| Repulsion.NoNetImpulse | web/static/app.js:576-581 | with nothing pinned the total velocity is unchanged |
| Drawio.GridColumnsIsLeast | web/static/app.js:2050-2052 | the rounded-up square root is the least number of columns whose square has room |
| Drawio.GridIsSquarish | web/static/app.js:2364-2365 | there are as many rows as columns or one fewer, with room for every host and no empty row |
| Drawio.GridRows | web/static/app.js:2056-2060 | flattening the rows gives the items back; all rows but the last are full |
| Drawio.BuildDrawioDiagram | web/static/app.js:2297-2401 | draws every part in order at its place under consecutive ids |
| Drawio.NothingOverlaps | web/static/app.js:2358-2401 | two nodes, labels included, overlap only if one contains the other, for any host counts |
| Drawio.EveryNodeDrawn | web/static/app.js:2315-2324 | exactly the legends, one box per subnet, one node per host of a subnet and the table are drawn, under distinct ids |
| Drawio.NoNodeTwice | web/static/app.js:2362-2400 | no part is drawn twice |
| Csv.ReadBack | web/static/app.js:1928-1944 | reading what was printed gives the same rows for all field strings, unless a last row of one empty field follows another row |
| Csv.ReportReadsBack | web/static/app.js:1933-1945 | the priority report always reads back as its header and one row per host, with its seven columns in the order of the header |

## Left out

* Timestamps, tags, settings, events other than those counted here, listing orders and SQL itself: tables are
  maps under their UNIQUE keys. Store calls do not fail, except that an INSERT without its parent row or on a
  taken key changes nothing.
* What the network, external tools and parsers answer: arbitrary parameters. Of the CIDR parser only
  `SubnetResolution` asks something, that it reads back the /24 texts the importers print.
* The default rules, well-known services and common ports: arbitrary values.
* Shutdown: the ICMP reader's exit on a closed socket, and the early return of a scan cycle on cancellation.
* Fairness: the trigger and ping theorems say what cannot be lost or confused, not when a step is taken.
* IPv4-mapped IPv6 prefixes.
* The plain TCP scan cycle and the reverse-DNS action: the same building blocks as the nmap cycle.
* Link attraction, damping and drawing in the graph, and floating-point rounding.
* Import restores every host and subnet row as automatically discovered; only the columns a document carries
  are compared by the round trip, and risk rules are treated apart, in `RuleImport`.
- ScanSubnetNmap: handles the hosts of a cycle one at a time, in any order, so it does not capture interleavings
  of their store calls; the run-level theorems of `Lifecycle`, `PortScan` and `Reflag` do.
- RunImportRules: takes the stored rules in the order of their SELECT as a parameter.
- RiskForPorts: lower-casing is a parameter, and a reason is kept as the values it is formatted from.
- LayoutLevel: does not model positions of nodes; keys are values instead of the strings that spell them.
- Repel: grid cells are named by coordinate pairs instead of strings.
- BuildDrawioDiagram: places hosts by their rank within the subnet; labels, styles and sort order are not modelled.
