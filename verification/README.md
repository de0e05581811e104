# Protomesh: a verified model of the control plane

Protomesh keeps versioned resources in one store, streams their changes to watchers, and each watcher keeps a
structure of its own that must agree with the store. This project models that chain in Dafny and proves how far
the agreement goes, and exactly when it fails. Four self-contained state machines beside the chain are modelled
too: the in-process publish and subscribe hub, the handshake of a streaming Lambda call, the endpoint groups of an
Envoy cluster, and the random string.

The modules, from the store outwards:

| module | what it models |
|---|---|
| `Changes` | replaying a stream of changes, and handing a page over as two lists instead |
| `ResourceStore` | the cache table, the event table, and the two transactions that write them |
| `StoreContents` | what the store holds after any run, told from the requests |
| `Watch` | the paged snapshot, the keyset query, and the two loops that read them |
| `SnapshotCoverage` | when the pages of a snapshot hold every row exactly once, whatever order the database gives ties |
| `WatchProtocol` | one watcher and any number of transactions, interleaved query by query |
| `WatchStream` | what the watcher receives, told from the stream alone, row by row |
| `Matcher`, `SourceMatching` | the gateway's matcher trees, as objects and as values, against flat tables |
| `HttpMethods` | method names, and the request verbs that reach them |
| `Gateway`, `GatewayBatches` | the gateway's batch step on `active` and both matchers, and runs of batches |
| `Worker` | the worker's `triggers` map |
| `WorkerPages` | when the worker handles a page without an error, and what it then holds |
| `Consumers` | a page as each consumer applies it, against its events one by one |
| `EndToEnd` | store, stream and gateway together |
| `EnvoyRoutes` | the virtual hosts: full rebuild, differences, incremental publication |
| `VirtualHosts` | the rebuilt virtual hosts told from the policies, field by field |
| `PubSub` | the hub's two indexes, its stream, and delivery |
| `Handshake` | receive loop, send loop and spawned calls around one rendezvous channel |
| `EnvoyClusters` | endpoints grouped by cluster, region and zone |
| `RandString` | letters cut out of 63-bit draws |
| `Ordering`, `Strings`, `Wrappers` | ascending listings, the string order, and shared values |

Code that updates things in place is a class or a loop here too: the store, the gateway, the matcher trees (as
linked objects with their footprints), the worker, the routing, the hub with its subscribers, the cluster
endpoints, and the loops of the watch, the key sort and the random string. Each such method is proved equal to a
function of the old state, and the properties are proved of that function, over every input and every run.
Protocols whose threads interleave are state machines over their steps.

## Conditions the proofs found

Several properties one would like hold under a condition only. Each is proved with its condition, and where the
condition fails there is a proof of what goes wrong.

- A page handed over as updates and drops equals its events one by one exactly when, for the gateway, every id the
  page both updates and drops ends updated, and for the worker, when every such id ends dropped
  (`Consumers.GatewayBatchExact`, `Consumers.WorkerBatchExact`): opposite conditions on one stream.
- An event that commits at or below the cursor is never sent, and a clock that does not go back does not exclude
  that: a put in the cursor's own second suffices (`WatchProtocol.WatchExact`, `WatchProtocol.LateNeverSent`,
  `WatchProtocol.SameSecondNeverSent`).
- The listing query does not order rows of one version, so each page may be cut from another order. The pages hold
  every row exactly once, whatever the orders, if and only if every page but the last ends where a version ends, that
  is, if for each multiple of 50 below the number of rows exactly that many rows have a version up to some bound
  (`SnapshotCoverage.SnapshotExact`); rows may trade places within a page. The offset fits 32 bits below 2147483650
  rows and not from there on (`Watch.Snapshot`).
- The matchers hold nothing but the active policies exactly when every key that an update moves a policy away from
  is taken by another active policy (`GatewayBatches.BatchNothingElse`).
- A gRPC drop forgets its key (`SourceMatching.GrpcDropForgets`). An HTTP drop need not: it forgets its key for a
  request if and only if the path it leaves behind does not hide the answer of the next shorter path from that request
  (`SourceMatching.HttpDropForgetsAt`); and for all requests if and only if it leaves no such path with an entry below
  it, or exact entries answer every request that ends there (`SourceMatching.HttpDropForgets`). The second alternative
  needs stored paths that go on from the path by every character there is; without it the condition is the first alone
  (`SourceMatching.HttpDropForgetsPlainly`, `SourceMatching.EveryCharacterShields`).
- Two passes of the virtual hosts before one take lose a host that the first dropped and the second brings back,
  and nothing else (`EnvoyRoutes.TwoPassesOneTake`). The batch step takes after every pass.
- `Unsubscribe` ends no subscription: the guard at pkg/pubsub/pubsub.go:216 skips the topics that are subscribed,
  while the comment at pkg/pubsub/pubsub.go:198-200 promises the opposite. The model follows the code
  (`PubSub.UnsubscribeKeepsTopics`, `PubSub.StillServed`).
- Policies can name the methods CONNECT and TRACE, but a request of either is looked up under no method, so such a
  policy answers no request (`HttpMethods.VerbServed`).
- At most one Lambda call is pending unless a call checks the last-result flag late and sees the flag that the next
  call has raised (`Handshake.OnePending`). Such a check does lead to two pending calls from every state in which the
  send loop goes on to its next result, and the first one does not where the loop has ended or sends its last
  (`Handshake.PrematureSpreads`, `Handshake.StoppedNoHarm`); `Handshake.PrematureHappens` is a run.

## Model

| member | source | states |
|---|---|---|
| Changes.ReplayAt | pkg/resource/resource.go:115-141 | what a replica holds under a key after any stream of changes is what the last change on that key left, or what it held before |
| Changes.StepsCommute | pkg/resource/resource.go:115-141 | changes on different ids may be applied in either order |
| Changes.LastSplit | provider/postgres/resource_store.go:384-392 | splitting a page by status keeps, in the list of its status, the last change on each id |
| Changes.DropsFirstExact | pkg/gateway/gateway.go:94-133 | a page applied drops first is its replay if and only if every id both updated and dropped in it ends updated, whatever the replica held |
| Changes.UpdatesFirstExact | pkg/resource/resource.go:115-141 | a page applied updates first is its replay if and only if every id both updated and dropped in it ends dropped |
| ResourceStore.Store.PutResource | provider/postgres/resource_store.go:94-162 | one transaction: a bad id changes nothing; an unchanged hash writes nothing and answers the cached version; else the row is cached at the current second with one ACTIVE event, and a key clash undoes both; `StoreContents.PutExact` tells the new tables entry by entry |
| ResourceStore.Store.DropResources | provider/postgres/resource_store.go:198-241 | the loop over the ids commits the tables that dropping them one after the other gives, or leaves both tables as they were and reports the first failure |
| ResourceStore.DropExact | provider/postgres/resource_store.go:198-241 | a drop list, with repeats and spellings, succeeds if and only if every id parses and no cached one has an event this second; then it removes just the named rows and logs one event for each that was there; else nothing changes |
| ResourceStore.PutReadBack | provider/postgres/resource_store.go:112-160 | a successful put is read back: the cache holds its digest afterwards, with the version it answers, and repeating it at any time changes nothing and answers the same (`StoreContents.PutExact` has name and specification) |
| StoreContents.PutExact | provider/postgres/resource_store.go:94-162 | a put, exactly: a bad id, a cached id with the very same resource, and a key that is taken write nothing, with their three answers; otherwise the cache row and one ACTIVE event hold the new name, specification and digest at the current second, and every other entry is as it was |
| StoreContents.RunHonest | provider/postgres/query.sql:18-24 | after every run each cached row and each event holds the name and specification of its own digest, which names its own namespace and id |
| StoreContents.RunHoldsLast | provider/postgres/resource_store.go:94-241 | after every run the cache holds under a key the resource of the last successful put, unless a successful drop came later, and then nothing |
| StoreContents.RunRow | provider/postgres/resource_store.go:112-160 | the same with the version: the row is that of the last put that changed something, as a put of the same resource keeps the row |
| StoreContents.DropErrorExact | provider/postgres/resource_store.go:211-233 | a failing drop answers with the first id of the list that cannot be dropped, by its position where it does not parse |
| ResourceStore.ExecKeeps | provider/postgres/query.sql:26-73 | every transaction at or after the clock keeps: no event ahead of the clock, every cached row logged, and the newest event of each resource saying what the cache holds |
| ResourceStore.RunConsistent | provider/postgres/resource_store.go:94-241 | that invariant holds after every serial run under a clock that does not go back |
| ResourceStore.LogIsCache | provider/postgres/query.sql:26-73 | in any tables with that invariant, the log of a namespace replayed in (version, id) order from nothing is its cache |
| ResourceStore.LogEqualsCache | provider/postgres/resource_store.go:94-241 | log equals cache: the same for every serial run, though within a second commit order and key order differ |
| Watch.FetchEvents | provider/postgres/query.sql:134-152 | the keyset query answers the first 50 events above the cursor in key order |
| Watch.AboveSplit | provider/postgres/query.sql:145-152 | moving the cursor to the n-th event above it leaves exactly the events behind that one |
| Watch.BuildPage | provider/postgres/resource_store.go:361-397 | the loop over the rows puts each into the list of its status, in order, and moves the cursor to the last row |
| Watch.Poll | provider/postgres/resource_store.go:354-417 | keyset paging: against an unchanging log of any size the loop ends having sent exactly the events above the cursor, in key order, in pages of 1 to 50, then the end of list |
| Watch.Snapshot | provider/postgres/resource_store.go:268-323 | the loop over the OFFSET queries, each with an answer of its own order, sends in pages of 1 to 50 just what the queries cut, and comes to its end if and only if there are fewer than 2147483650 rows; from there on a 32-bit offset is negative and the query fails; the i-th response has no drops and, for each id of the i-th page in order, that id with the version and content of its cached row |
| SnapshotCoverage.SnapshotExact | provider/postgres/query.sql:154-169 | for every cache: the pages hold every row exactly once for all answers the database may give, if and only if every page but the last ends where a version ends |
| SnapshotCoverage.SamePrefix | provider/postgres/query.sql:166-169 | under that condition any two answers have the same rows before every page |
| SnapshotCoverage.TieRepeats | provider/postgres/query.sql:166-169 | where a page ends inside a version there are answers whose pages show a row twice |
| SnapshotCoverage.StableAnswer | provider/postgres/resource_store.go:272-323 | if all queries get the same answer, the pages are that answer, each row once, whatever the versions |
| Watch.UnstableTiesLoseARow | provider/postgres/query.sql:154-169 | 51 rows of one version and two answers that order them differently: a row that neither page shows |
| WatchProtocol.StepKeepsStore | provider/postgres/resource_store.go:94-241 | no interleaving of queries disturbs the store's invariant |
| WatchProtocol.MaxBounds | provider/postgres/query.sql:120-132 | the cursor chosen after the snapshot bounds every logged event of the namespace |
| WatchProtocol.TakenUpTo | provider/postgres/query.sql:145-152 | a page takes an event above the cursor if and only if it is not above the page's last |
| WatchProtocol.PathExtends | provider/postgres/resource_store.go:394-395 | a query never moves the cursor back, and lengthens the strictly climbing path of sent events |
| WatchProtocol.TailAlwaysExact | provider/postgres/resource_store.go:354-411 | in every reachable state: a logged event above the start of the tail is sent, or still above the cursor, or was not above the cursor when it committed |
| WatchProtocol.WatchExact | provider/postgres/resource_store.go:354-411 | watch exactness over every interleaving, by keys: the keys taken climb strictly, so none is taken twice; when a poll ends, an event above the start has been taken if and only if it was above the cursor when it committed (`WatchStream.TailStreamExact` ties the keys to what is sent) |
| WatchStream.StepSends | provider/postgres/resource_store.go:268-411 | what each step adds to the stream in any state: a commit nothing; a snapshot query the cached rows at its offset as one page; the query of the greatest key the end of the list; a query of the tail one page of the next events if there are any, and the end of the list if they are fewer than 50 |
| WatchStream.TailStreamExact | provider/postgres/resource_store.go:361-405 | over every interleaving, the pages sent since the tail began hold exactly the rows (id, version, content, by status) of the events taken: 1 to 50 on a page, both lists climbing, every row of a page above all rows of the pages before it, so that none comes twice |
| WatchStream.ReceivedExact | provider/postgres/resource_store.go:354-411 | when a poll ends, the row of an event above the start stands on some page sent if and only if the event was above the cursor when it committed |
| WatchStream.ListEndsExactly | provider/postgres/resource_store.go:405-417 | over every run a step sends the end of a list if and only if it ends a poll or is the query of the greatest key, and then once and last |
| WatchStream.SnapshotSendsOnce | provider/postgres/resource_store.go:272-323 | over every run a snapshot still at it has sent one full page for each of its queries and nothing else |
| WatchStream.MaxKeyExact | provider/postgres/query.sql:120-132 | the greatest key is that of a logged event of the namespace and not below any; there is none only if nothing is logged |
| WatchProtocol.SameSecondCommitIsLate | provider/postgres/resource_store.go:109-110 | in any state of a tail: a put in the cursor's second of a resource with a smaller id is logged at a key below the cursor |
| WatchProtocol.LateNeverSent | provider/postgres/resource_store.go:354-411 | an event not above the cursor when it committed is never sent, however the run goes on |
| WatchProtocol.SameSecondNeverSent | provider/postgres/resource_store.go:325-342 | a run from the empty store, under a clock that stands still: put, snapshot, greatest key, put of a smaller id; the second put is logged, and no continuation of the run ever sends it |
| Matcher.LongestPrefix | api/types/v1/gateway.proto:65-67 | the longest stored key that is a prefix of the given one, if there is any |
| Matcher.PolicyMatcher.Insert | pkg/gateway/matcher.go:23-60 | insertion by gRPC name, by HTTP path with a nested tree, or by method in the linked tree is the insertion in the tree as a value, and keeps the tree's objects apart |
| Matcher.PolicyMatcher.Remove | pkg/gateway/matcher.go:62-96 | removal likewise; a path keeps its nested tree when emptied |
| Matcher.PolicyMatcher.Match | pkg/gateway/matcher.go:98-127 | matching in the linked tree answers what matching in the tree as a value answers |
| SourceMatching.SourceMatcher.AddPolicy | pkg/gateway/matcher.go:144-158 | a policy goes into the exact tree or the prefix tree by its flag, and into no other |
| SourceMatching.SourceMatcher.DropPolicy | pkg/gateway/matcher.go:177-191 | a policy leaves the tree its flag names, and no other |
| SourceMatching.SourceMatcher.MatchPolicy | pkg/gateway/matcher.go:160-175 | the exact tree is asked first, the prefix tree where it has no answer |
| SourceMatching.HttpHistory | pkg/gateway/matcher.go:35-57 | after every history of adds and drops the trees hold under each path and method what the flat table holds, and the prefix tree's paths are those ever inserted |
| SourceMatching.HttpMatchRefines | pkg/gateway/matcher.go:98-175 | after every history a match is the exact entry at (path, method), else (path, any method), else the same two at the longest prefix path ever inserted |
| SourceMatching.HttpDropStillHides | pkg/gateway/matcher.go:74-80 | a prefix path with no entry left answers every request that ends there and has no exact answer, with nothing, whatever shorter paths hold |
| SourceMatching.HttpDropForgetsAt | pkg/gateway/matcher.go:74-80 | after a drop a request gets the answer of the history in which the key was never used, if and only if it is not hidden: the drop leaves a path behind that the request ends at, nothing exact answers, and the longest path below would |
| SourceMatching.HttpDropForgets | pkg/gateway/matcher.go:74-80 | all requests get those answers if and only if the drop leaves no path behind with an entry at the longest path below it, or exact entries answer all requests that end there |
| SourceMatching.HttpDropForgetsPlainly | pkg/gateway/matcher.go:74-80 | unless every character goes on from the path in some stored key: if and only if the drop leaves no path behind with an entry at the longest path below it |
| SourceMatching.EveryCharacterShields | pkg/gateway/matcher.go:104-125 | if every character does go on, exact entries at the path alone shield off all below |
| SourceMatching.HttpDropHides | pkg/gateway/matcher.go:74-80 | a history in which "/" serves "/a" before "/a" is added and dropped, and not after |
| SourceMatching.GrpcMatchRefines | pkg/gateway/matcher.go:98-175 | after every history a match is the exact entry for the name, else the entry at the longest stored prefix |
| SourceMatching.GrpcDropForgets | pkg/gateway/matcher.go:66-72 | after dropping a gRPC key every name gets the answer of the history in which the key was never used |
| HttpMethods.NamesDistinct | api/types/v1/networking.proto:33-42 | the names of the ten methods are pairwise distinct |
| HttpMethods.NameIsWord | api/types/v1/networking.proto:33-42 | each is the common prefix and the request verb of its number |
| HttpMethods.VerbServed | pkg/gateway/helpers.go:68-98 | a request is looked up under the name of a method if and only if its verb is that method's, save CONNECT and TRACE, which are looked up under none |
| Gateway.Gateway.Collect | pkg/gateway/gateway.go:57-87 | the rows of a list leave under each id the last policy that decodes; rows that do not decode are skipped |
| Gateway.Gateway.ApplyDrops | pkg/gateway/gateway.go:94-115 | in any order of the dropped ids: they leave `active`, the keys of their active policies leave the matchers, nothing else does, and the prefix paths stay |
| Gateway.Gateway.ApplyUpdates | pkg/gateway/gateway.go:117-133 | in any order of the updated ids: `active` takes the updates, each of their keys holds one of the policies that name it, and their prefix paths are added |
| Gateway.Gateway.AfterBatch | pkg/gateway/gateway.go:89-133 | both loops in turn end in a state that the batch allows (`Applied`): active policies, entries and prefix paths, with both matchers still matching the flat tables |
| Gateway.Gateway.HandlePage | pkg/resource/resource.go:111-145 | one page of the stream, from its two lists to the new `active` and to a state that its batch allows |
| Gateway.Gateway.MatchHttp | pkg/gateway/gateway.go:217-222 | in every valid state an HTTP match is the flat lookup in the entries and prefix paths that the batches left |
| Gateway.Gateway.MatchGrpc | pkg/gateway/gateway.go:179-187 | in every valid state a gRPC match is the flat lookup in the entries that the batches left |
| GatewayBatches.BatchComplete | pkg/gateway/gateway.go:94-133 | a batch with distinct keys before and after it, even one that swaps keys or reuses one it frees, leaves each active policy as what the matchers hold at its key |
| GatewayBatches.BatchNothingElse | pkg/gateway/gateway.go:117-133 | after a batch on exact tables the matchers hold nothing else if and only if every key an update moves a policy away from is taken by another active policy |
| GatewayBatches.RunComplete | pkg/gateway/gateway.go:89-133 | routing stays complete over every run of batches with distinct keys, in any iteration order |
| GatewayBatches.RunExact | pkg/gateway/gateway.go:89-133 | if no update ever changes a key, the matchers hold the active policies and nothing else after every run |
| GatewayBatches.RunPaths | pkg/gateway/matcher.go:35-40 | over every run of batches the prefix paths an HTTP match goes by are exactly those of the policies that some batch updated, whatever was dropped since |
| GatewayBatches.CompleteIsServed | pkg/gateway/matcher.go:160-175 | a complete gateway answers a request for an exact gRPC name, or an exact path and method, with the very active policy that names it |
| Worker.Worker.OnUpdated | pkg/worker/worker.go:88-103 | a process sets the trigger of its id; another message sets none; a malformed one is an error |
| Worker.Worker.OnDropped | pkg/worker/worker.go:105-155 | an unknown id changes nothing; a known one is removed whatever the workflow call then answers |
| Worker.Worker.HandlePage | pkg/resource/resource.go:115-141 | all updates in order, then all drops in order, up to the first error |
| WorkerPages.UpdatesDone | pkg/worker/worker.go:88-103 | updates end without an error if and only if every specification can be read |
| WorkerPages.DropsDone | pkg/worker/worker.go:105-155 | drops end without an error if and only if each trigger dropped can name its workflow and has a drop action, and cancelling or terminating does not fail where that is the action; then just the dropped ids are gone |
| WorkerPages.PageDone | pkg/worker/worker.go:88-155 | a page ends without an error if and only if both lists do, the drops on the triggers the updates leave; then an id has no trigger if dropped, else that of its last process on the page or the one it had |
| Consumers.GatewayBatch | pkg/gateway/gateway.go:94-133 | the gateway's batch on a page of events is the page's drops replayed, then its updates |
| Consumers.GatewayBatchExact | pkg/gateway/gateway.go:94-119 | it equals the replay event by event if and only if every id with both statuses in the page ends on ACTIVE |
| Consumers.WorkerBatchExact | pkg/worker/worker.go:88-111 | for a page handled without an error, the worker's result equals the replay if and only if every id with both statuses ends on DROPPED |
| EndToEnd.SnapshotPlusTail | provider/postgres/resource_store.go:325-342 | with nothing logged below it since, the events above the chosen cursor extend the snapshot's cache to the current cache |
| EndToEnd.SnapshotSent | provider/postgres/resource_store.go:286-317 | the gateway that handled the snapshot so far holds the decoded rows of the listing so far |
| EndToEnd.DecodeCommutes | pkg/gateway/gateway.go:57-87 | if the specs of the namespace decode, replaying policies is decoding the replayed rows |
| EndToEnd.AlwaysInLine | provider/postgres/resource_store.go:251-417 | over every good run, in every state: the gateway holds the decoded snapshot so far, or the replay of all events up to the cursor |
| EndToEnd.EndOfListInLine | provider/postgres/resource_store.go:251-417 | end to end: over every good run, whenever the end of a list is handled, the gateway's active policies are the decoded cache as of the query that ended the list. A run is good when the specs of the watched namespace decode, nothing of it is written during the snapshot, each answer of the listing has the same rows before the page as the last, tailed events commit above the cursor, and no page drops last an id it also updates; other namespaces may hold and do anything |
| EndToEnd.SameBeforeVersions | provider/postgres/query.sql:166-169 | any two answers have the same rows before a page, if pages end where versions end |
| Strings.StringOrder | provider/envoy/helpers.go:12 | the order of the sort is a strict total order |
| Strings.Lexicographic | provider/envoy/helpers.go:12 | the order is the lexicographic one: a proper prefix comes first, otherwise the first differing character decides |
| Strings.SortStringKeys | provider/envoy/helpers.go:5-15 | the keys of a map in any iteration order become the one ascending listing of them |
| EnvoyRoutes.Routing.Take | provider/envoy/envoy_routes.go:106-124 | hands out what is accumulated and starts anew, leaving policies and hosts |
| EnvoyRoutes.Routing.DropPolicy | provider/envoy/envoy_routes.go:126-128 | removes one policy and nothing else |
| EnvoyRoutes.Routing.PutPolicy | provider/envoy/envoy_routes.go:130-132 | sets one policy and nothing else |
| EnvoyRoutes.Routing.AddRoutes | provider/envoy/envoy_routes.go:228-242 | the loop over a policy's routes appends exactly those whose hash the host does not have yet |
| EnvoyRoutes.Routing.AddPolicy | provider/envoy/envoy_routes.go:210-244 | one more policy extends the hosts of the policies before it to those of all of them, hashes up to date |
| EnvoyRoutes.Routing.BuildHosts | provider/envoy/envoy_routes.go:204-246 | the first loop gives the full rebuild of the policies in ascending id order |
| EnvoyRoutes.Routing.PublishKnown | provider/envoy/envoy_routes.go:248-260 | in any order of the known hosts: those whose hash changed are updated, those gone are dropped |
| EnvoyRoutes.Routing.PublishNew | provider/envoy/envoy_routes.go:262-270 | in any order: the new hosts are updated |
| EnvoyRoutes.Routing.ProcessChanges | provider/envoy/envoy_routes.go:202-273 | a pass publishes exactly the difference between the last hosts and the full rebuild, and keeps the rebuild (`VirtualHosts.RebuildTold`) |
| EnvoyRoutes.Routing.Pass | provider/envoy/envoy_xds.go:299-306 | a pass and a take hand out disjoint updates and drops that turn the last hosts into the full rebuild |
| EnvoyRoutes.DistinctFirstOnly | provider/envoy/envoy_routes.go:228-242 | a route is kept if and only if its name does not come before it; kept names are pairwise distinct, no name is lost, and kept routes stand in the order in which they first come |
| EnvoyRoutes.FirstOnlyDetermines | provider/envoy/envoy_routes.go:228-242 | those conditions determine the kept routes and their order |
| EnvoyRoutes.RebuildCanonical | provider/envoy/envoy_routes.go:204-246 | for every policy map: every policy is on a host; each host's routes are those of all its policies in ascending id order, in that order, without later duplicates; domain and CORS come from the least id (`VirtualHosts.RebuildTold` says the same field by field) |
| EnvoyRoutes.CanonicalDetermines | provider/envoy/envoy_routes.go:204-246 | that determines the host |
| VirtualHosts.RebuildTold | provider/envoy/envoy_routes.go:202-246 | for every policy map, field by field: there is a host for a name if and only if a policy's ingress and kebab-cased domain spell it; each of its routes has the name, prefix, timeout, cluster and rewrite of a policy's route there, the first of its name by policy id and position; each such first route is there, in that order; domain and CORS are those of the least policy id |
| VirtualHosts.EveryRouteServed | provider/envoy/envoy_routes.go:228-242 | every route of every policy has a route of its name on the policy's host |
| VirtualHosts.PoliciesTold | provider/envoy/envoy_routes.go:126-132 | after every run the current policies are those last put and not dropped since |
| EnvoyRoutes.DifferenceApplies | provider/envoy/envoy_routes.go:248-270 | applying the difference of two generations turns the one into the other; its halves are disjoint; it is empty if and only if they are equal |
| EnvoyRoutes.IncrementalIsFull | provider/envoy/envoy_routes.go:202-273 | incremental equals full: over every run of puts, drops and passes, a map that starts empty and applies what each pass hands out is the full rebuild as of the last pass |
| EnvoyRoutes.PassesDisjoint | provider/envoy/envoy_routes.go:248-270 | after every run the updates and drops of a pass are disjoint, and a second pass right behind it hands out nothing |
| EnvoyRoutes.TwoPassesOneTake | provider/envoy/envoy_routes.go:106-124 | what two passes accumulate for one take gives the second rebuild if and only if no host the first dropped is back |
| PubSub.Subscriber.Put | pkg/pubsub/pubsub.go:27-37 | a message joins the channel when delivery blocks or there is room |
| PubSub.Subscriber.Subscriptions | pkg/pubsub/pubsub.go:47-53 | lists the subscriber's topics in any order |
| PubSub.Hub.Subscribe | pkg/pubsub/pubsub.go:172-196 | the loop enters the id under every topic in both indexes, for a subscriber found or made, and keeps them inverse; `PubSub.SubscribeExact` tells the new state entry by entry |
| PubSub.Hub.Leave | pkg/pubsub/pubsub.go:214-228 | one turn of the unsubscribing loop, guard as written, changes nothing |
| PubSub.Hub.Unsubscribe | pkg/pubsub/pubsub.go:201-234 | for every list of topics, even none: all that changes is that a subscriber without a topic is forgotten |
| PubSub.Hub.Publish | pkg/pubsub/pubsub.go:242-272 | without blocking the count is the number of (message, subscriber) pairs that a scan of all subscribers' own sets finds; with blocking it is that up to the first message that has a subscriber, which alone is put on the stream |
| PubSub.Hub.Take | pkg/pubsub/pubsub.go:145 | the streaming loop receives the oldest message |
| PubSub.Hub.Deliver | pkg/pubsub/pubsub.go:147-165 | in any order of the listed subscribers, each gets the message once (if there is room, without blocking) and no other does |
| PubSub.SubscribeExact | pkg/pubsub/pubsub.go:172-196 | after every run, a subscribe leaves its subscriber with the topics it held and those given and with the channel it had, empty if it is new; all other subscribers, the stream and the message in hand are as they were |
| PubSub.SubscribersHearAll | pkg/pubsub/pubsub.go:143-196 | with blocking delivery, from a subscribe on, its subscriber gets every message delivered on each topic given, exactly once and in order, whatever else happens |
| PubSub.UnsubscribeExact | pkg/pubsub/pubsub.go:201-234 | after every run, an unsubscribe forgets its subscriber if it holds no topic, and else changes nothing |
| PubSub.DeliverExact | pkg/pubsub/pubsub.go:143-169 | after every run, a delivery appends the message in hand to the channels of just those whose own set holds its topic, with blocking or with room, and changes no subscription |
| PubSub.PublishExact | pkg/pubsub/pubsub.go:242-272 | after every run, a publish appends to the stream the first message that anyone hears, if there is one, or without blocking those heard that find room, each once and in order, and changes nothing else |
| PubSub.ReachOfFirst | pkg/pubsub/pubsub.go:248-268 | the count that a blocking publish answers is the number of subscribers of the first message that has any, or 0 |
| PubSub.AlwaysInverse | pkg/pubsub/pubsub.go:172-234 | in every reachable state an id is listed under a topic if and only if that subscriber exists and holds the topic, and no topic set is empty |
| PubSub.AcceptedExact | pkg/pubsub/pubsub.go:248-268 | with blocking the stream takes just the first message that has a subscriber; without blocking it takes exactly the messages that have a subscriber and find room, each once and in order |
| PubSub.ChannelIsHeard | pkg/pubsub/pubsub.go:143-169 | over every interleaving a channel holds what its subscriber's own set let it hear at each delivery: delivery by the index refines delivery by a scan |
| PubSub.StreamInOrder | pkg/pubsub/pubsub.go:145 | what was accepted is what was delivered, then the message in hand, then what waits, in one order |
| PubSub.OrderedDelivery | pkg/pubsub/pubsub.go:143-169 | over every interleaving each channel is a subsequence of the delivered messages, which are the first of the accepted ones |
| PubSub.BlockingMissesNothing | pkg/pubsub/pubsub.go:156-163 | with blocking delivery, from whenever a subscriber holds a topic, its channel gets every message delivered on it, exactly once and in order |
| PubSub.UnsubscribeKeepsTopics | pkg/pubsub/pubsub.go:216 | after Unsubscribe the subscriber holds none of the topics if and only if it held none before, and no subscription of anyone changes |
| PubSub.StillServed | pkg/pubsub/pubsub.go:216 | a run in which a message reaches a subscriber that unsubscribed from its topic |
| Handshake.AlwaysAccounted | provider/aws/lambda_grpc_handler.go:192-197 | in every reachable state: until the first call passes its rendezvous no result is counted and there is no other call, so it never returns nothing to the receive loop; every other call was started by the send loop (`Handshake.StreamAnswers` says what each call is told) |
| Handshake.StreamAnswers | provider/aws/lambda_grpc_handler.go:192-197 | after every run, a call that answers as a stream is told the end of the stream if and only if the receive loop made it, and nothing if and only if the send loop started it |
| Handshake.StreamGoesOn | pkg/server/grpc_proxy.go:100-107 | over every run in which no call of the send loop settles or fails, the stream error stays nil, and the send loop stops only where it reads the flag of the last result as raised or a send fails |
| Handshake.ResultsExact | provider/aws/lambda_grpc_handler.go:263-265 | in every run, until the channel is closed, results received are as many as calls past their rendezvous |
| Handshake.TimerExact | provider/aws/lambda_grpc_handler.go:173-190 | in every run the timer is there if and only if some call was answered with a timeout header |
| Handshake.CallsBounded | provider/aws/lambda_grpc_handler.go:263-280 | in every interleaving the receive loop (pkg/server/grpc_proxy.go:129-161) calls at most once, and calls started are at most results counted plus one |
| Handshake.AlwaysSingle | provider/aws/lambda_grpc_handler.go:84-89 | in every run without a premature check: only the newest call may be pending, the flag is as that call left it, and a closed channel goes with a raised flag |
| Handshake.OnePending | provider/aws/lambda_grpc_handler.go:84-89 | at most one call has yet to pass its rendezvous, in every run without a premature check |
| Handshake.AtOnceNeverPremature | provider/aws/lambda_grpc_handler.go:84-89 | no check is premature if every rendezvous is followed by its check at once |
| Handshake.PrematureSpreads | provider/aws/lambda_grpc_handler.go:263-277 | a premature check leads to two pending calls whenever the send loop waits, is sending a result that is not the last, or has started a call and finds no stream error |
| Handshake.StoppedNoHarm | pkg/server/grpc_proxy.go:100-107 | if no check was premature until the send loop ended or came to its last result, at most one call is pending ever after, premature checks from then on or not |
| Handshake.PrematureHappens | provider/aws/lambda_grpc_handler.go:84-89 | a run of twelve steps after which a check is premature, and the six more that make two calls pending |
| EnvoyClusters.ClustersEndpoints.Add | provider/envoy/envoy_clusters.go:52-105 | the loop groups the new instances behind the old ones of the cluster, by region and zone, and leaves the other clusters; adding none still makes the cluster known |
| EnvoyClusters.ClustersEndpoints.ToLoadAssignment | provider/envoy/envoy_clusters.go:107-146 | in any order of both maps: one group for each distinct region and zone ever added, with its locality and its endpoints in order of addition; nothing for a cluster never added to |
| EnvoyClusters.AssignmentConserves | provider/envoy/envoy_clusters.go:119-142 | conservation: the groups together are a permutation of all endpoints added under the cluster |
| EnvoyClusters.SameLocality | provider/envoy/envoy_clusters.go:122-134 | two groups get the same locality if and only if they are one, or neither has a region (the zone is then not given out) |
| EnvoyClusters.AssignmentTold | provider/envoy/envoy_clusters.go:119-142 | one group for each key, with its region and zone, or no locality without a region, and the endpoints of just the instances with that key, in order of addition: host name, protocol, address and port are theirs |
| EnvoyClusters.EndpointTells | provider/envoy/envoy_clusters.go:73-99 | an endpoint has the host name, protocol, address and port of its instance |
| RandString.RandString | provider/aws/helpers.go:18-35 | given draws with enough such digits, the loop ends with exactly the first n base-64 digits below 52, ten a draw in draw order, spelled as letters, and takes no draw more than they need, one in any case |
| RandString.SliceIsDigit | provider/aws/helpers.go:26-31 | the mask cuts the next digit out of the cache and the shift leaves what is behind it |
| RandString.RestIsShift | provider/aws/helpers.go:30 | what j divisions of a draw by 64 leave is the draw shifted past the bits of j digits, for j up to 9 |
| RandString.ShiftsArePowers | provider/aws/helpers.go:30 | those shifts divide by the powers of 64 |
| RandString.LettersInOrder | provider/aws/helpers.go:11 | digit d names the d-th of the 52 letters, small ones first |
| RandString.LettersDistinct | provider/aws/helpers.go:11 | different digits name different letters |

## Left out

- Overlapping SQL transactions and lock waits: transactions are serial, and a key violation undoes the whole one.
- The specification missing from a request (a nil dereference), and a NULL spec value against the column of the cache table: a resource of the model has a specification.
- SHA-256, in `hashResource`, `hashRoute` and the virtual-host hash: the digest is the hashed value, so taken as injective; protobuf marshalling is a function given as a parameter.
- UUID parsing, unmarshalling of specifications and kebab-casing: functions given as parameters; a UUID is the number its bytes spell.
- The clock: an input of each transaction, in seconds.
- `Get` of the store, and the queries provider/postgres/query.sql:75-102: reads and statements no property here needs.
- The watch interval, cancellation of a stream, and failures of a send or a query other than a refused offset: they end the stream.
- `IndexCursor` of the synchronizer (pkg/resource/resource.go:119-121): it is advanced and read nowhere else.
- Reconnecting and the goroutines of the synchronizer: a consumer handles the responses in the order of the stream.
- The radix tree's inside: a finite map with exact lookup and longest-prefix lookup.
- Handler maps and `ProcessPolicies` (pkg/gateway/gateway.go:135-151): the list of updated policies is reset there when nothing is dropped, so handlers need not receive every update.
- Starting workflows from triggers, and Temporal's answers: whether a call fails with an error other than not-found is an input. A process without a trigger is not modelled.
- The timeout of an Envoy route is a number or absent, and a CORS policy is the value that `makeCors` builds: their field-by-field construction has no invariant across steps.
- `EnvoyXds` as a whole: routing is driven directly. Its arguments at provider/envoy/envoy_xds.go:218 and the early return at provider/envoy/envoy_xds.go:266-269 make drops of other resources depend on map order.
- Nested maps and slices of endpoints are values here. An endpoint once appended is never written again, and an append writes behind the length of every slice handed out before, so an earlier assignment does not change.
- Closing the hub, and buffer sizes: whether a channel has room is an input of each step. What a subscriber has read of its channel is not modelled.
- PubSub.Hub.Publish: one call is one step; a call with several messages interleaved with the streaming loop is a run of several calls.
- Liveness: channel deadlocks, blocked goroutines and the scheduling of locks.
- Handshake.OnePending: the fields of the handler are shared values of a state machine, one step for each read or write; the payloads, status codes other than the streaming one, and a send on the closed channel or a second close, which the runtime answers with a panic, are not steps.
- RandString.RandString: it ends provided the draws have enough digits that name a letter, which a source of randomness gives with probability one only.
- Generated code, configuration, TLS, Redis, HTTP and gRPC plumbing, and provider/envoy/envoy_resources.go.
