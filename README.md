# go-tools core, modelled in Dafny

This project models the core of the Go library `go-tools`, written for an instant-messaging
server. It covers:

- the ZooKeeper service-discovery client: registration of a service as a sequential child of
  `/<scheme>/<service>`, address lookup, a per-service connection cache, session and
  child-change events, the periodic refresh, and the client options;
- the slice and map helpers of `datautil`;
- the error values of `errs`: coded errors, text errors, wrapping, `Unwrap`, the code relation
  and the key/value renderer;
- PKCS #7 padding, as defined in section 6.3 of RFC 5652;
- the OceanBase and MongoDB connection-string builders, validation and retry decisions;
- the metadata propagation and error translation of the gRPC client interceptor;
- environment lookups with defaults.

Modules follow the Go packages:

- `Zookeeper`, `ZkStore` and `ZkOptions`: the `discovery/zookeeper` package. `ZkStore` holds the
  ensemble.
- `DataUtil`, together with the reference definitions in `DataUtilSpec`.
- `Errs`.
- `Encrypt`.
- `OceanUtil` and `MongoUtil`.
- `Mw`.
- `Env`.
- Shared pieces: `Wrappers` (`Option`, `Result`), `Strs` (`strings.Split`/`Join`/`ToLower`,
  byte-wise order), `Strconv` (`Itoa`, `Atoi`, `ParseBool`, and the `Quote` that `*strconv.NumError` uses for its text) and `Fmt` (the `%s`/`%d` part of
  `fmt.Sprintf`).

Some code changes state in place. Each such piece is a class whose methods say exactly what
they change:

- `ZkClient` and the ensemble `Store`;
- `codeRelation`;
- the OceanBase `Config`;
- the `*[]E` argument of `DeleteAt` and `OrderPtr`.

Loops become methods with invariants, proved against recursive reference functions. Pure
code becomes functions and lemmas.

The environment appears as parameters:

- The ZooKeeper ensemble is an in-memory store: nodes and their data, the children listed
  under a path, and a table of requests that fail with a given error. It simplifies the
  ZooKeeper tree in the ways the `ZkStore.Store.Create` line under "## Left out" lists.
- `grpc.Dial` is an oracle from target and options to an error.
- `zk.Connect` and `connectOcean` are given outcomes.
- A Go context is a map from key to value.
- The process environment is a map.
- A Go map iterated with `range` is visited in an unspecified order, modelled by choosing any
  remaining key.

## Model

| member | source | states |
|---|---|---|
| `ZkOptions.ApplyOptionOnly` | discovery/zookeeper/options.go:37-77 | each option sets exactly its own group of fields to the value it was given: `WithRoundRobin` sets the balancer to "round_robin", `WithOptions` replaces (does not extend) the dial options, and every other field is unchanged |
| `ZkOptions.ApplyOptionOverrides` | discovery/zookeeper/options.go:37-77 | the value an option leaves in its group does not depend on the previous value |
| `ZkOptions.ApplyAllAppend` | discovery/zookeeper/zk.go:80-82 | options run one after another: applying `a + b` is applying `a`, then `b` |
| `ZkOptions.ApplyAllUntouched` | discovery/zookeeper/zk.go:80-82 | a group of fields that no option in the list sets keeps its value |
| `ZkOptions.ApplyAllLaterWins` | discovery/zookeeper/options.go:34 | when several options set the same group, the last one decides it |
| `ZkStore.Store.constructor` | discovery/zookeeper/zk.go:85 | a fresh connection: the given tree, no listed children, no watches or credentials, open |
| `ZkStore.Store.Exists` | discovery/zookeeper/zk.go:130 | `Exists` returns the request's fault, or whether the node is there |
| `ZkStore.Store.Children` | discovery/zookeeper/discover.go:120 | `Children` succeeds exactly for an existing node with no fault, and then lists its children |
| `ZkStore.Store.Get` | discovery/zookeeper/discover.go:126 | `Get` succeeds exactly for an existing node with no fault, and then returns its data |
| `ZkStore.Store.Create` | discovery/zookeeper/zk.go:135 | `Create` returns the fault, ErrNodeExists for a node that is there or that another client creates first, or nil; the tree changes only on a real creation |
| `ZkStore.Store.ChildrenW` | discovery/zookeeper/discover.go:116 | as `Children`, and a watch is left on the path only on success |
| `ZkStore.Store.CreateSequentialError` | discovery/zookeeper/register.go:50-54 | a sequential create fails, with a non-nil error, exactly when the parent is missing or the request faults |
| `ZkStore.Store.CreateProtectedEphemeralSequential` | discovery/zookeeper/register.go:50-54 | on success a node `<parent>/<name><n>` holding the data is added and listed last under its parent, and the counter advances; on failure nothing changes |
| `ZkStore.Store.Without` | discovery/zookeeper/register.go:92 | the child list of `p` with the entry naming `path` taken out, and no other |
| `ZkStore.Store.Delete` | discovery/zookeeper/register.go:92 | `Delete(path, -1)` fails on a fault, a missing node, or a node with children, changing nothing; otherwise the node leaves the tree and every child list |
| `ZkStore.Store.AddAuth` | discovery/zookeeper/zk.go:96-97 | credentials `scheme:auth` are appended to the connection unless the request faults |
| `ZkStore.Store.Close` | discovery/zookeeper/zk.go:98 | the connection is closed |
| `Zookeeper.ConnTargetLayout` | discovery/zookeeper/discover.go:202 | the target of a service is `scheme + ":///" + serviceName` |
| `Zookeeper.BalancerConfigLayout` | discovery/zookeeper/discover.go:200 | the default service configuration is `{"LoadBalancingPolicy": "<balancer>"}` |
| `Zookeeper.JoinHostPortSplits` | discovery/zookeeper/zk.go:205-207 | the port reads back after the last ':', a host without a colon reads back before the first one, and an IPv6 host is bracketed |
| `Zookeeper.ServiceOfPath` | discovery/zookeeper/discover.go:81-83 | a service path has more than one '/'-separated part, and its last part is the service name |
| `Zookeeper.EnsureProps` | discovery/zookeeper/zk.go:129-141 | after a successful `ensureAndCreate` the node exists; existing nodes keep their data; only that node may be added, and nothing on failure; an existing node or a race lost to another client is not an error; the error names the node and the failed request and is never ErrNodeExists itself |
| `Zookeeper.ReadAddrsOk` | discovery/zookeeper/discover.go:124-132 | reading the children succeeds exactly when every child can be read, and then gives one address per child, in order, holding its data and the service name |
| `Zookeeper.ReadAddrsFirstFailure` | discovery/zookeeper/discover.go:126-129 | a failed read reports the wrapped error of the first child that cannot be read |
| `Zookeeper.ReadAddrsPrefixFailure` | discovery/zookeeper/discover.go:127-129 | once a prefix of the children fails, the whole read fails with that error |
| `Zookeeper.RemoteAddrsFailure` | discovery/zookeeper/discover.go:115-129 | every failure of the watch, the listing or a read carries a non-nil error |
| `Zookeeper.RemoteAddrsHealthy` | discovery/zookeeper/discover.go:115-134 | on a healthy store the lookup succeeds with one address per listed child, and no children is an empty list |
| `Zookeeper.DialAllOk` | discovery/zookeeper/discover.go:176-183 | dialing succeeds exactly when every address dials, and then gives one connection per address, in order |
| `Zookeeper.DialAllPrefixFailure` | discovery/zookeeper/discover.go:177-181 | the first address that fails to dial decides the error |
| `Zookeeper.FetchConnsOk` | discovery/zookeeper/discover.go:166-184 | a cache miss succeeds exactly when the service node is ensured, its addresses are read, there is at least one, and every one dials; no address is the "addr is empty" error |
| `Zookeeper.ResolvedOnceProps` | discovery/zookeeper/zk.go:167-172 | flushing a service re-resolves only its own resolver, only if one exists, and adds none |
| `Zookeeper.ZkClient.constructor` | discovery/zookeeper/zk.go:70-79 | the client literal: root "/", default timeout, empty cache and resolver table, no logger, not registered, no node |
| `Zookeeper.ZkClient.Start` | discovery/zookeeper/zk.go:92-111 | the ticker restarts at 30 minutes, whatever `WithFreq` set; authentication runs; the root becomes `/<scheme>` and is ensured; any failure closes the connection |
| `Zookeeper.ZkClient.UseOption` | discovery/zookeeper/zk.go:81 | running an option closure on the client changes its settings as `ApplyOption` says |
| `Zookeeper.ZkClient.UseOptions` | discovery/zookeeper/zk.go:80-82 | the options run in list order |
| `Zookeeper.ZkClient.GetPathLayout` | discovery/zookeeper/zk.go:200-202 | a service's node is `/<scheme>/<service>`, the root path is `/<scheme>`, and a child event on the service node names the service |
| `Zookeeper.ZkClient.AddOption` | discovery/zookeeper/zk.go:210-212 | new dial options go after the existing ones, in order |
| `Zookeeper.ZkClient.EnsureAndCreate` | discovery/zookeeper/zk.go:129-141 | the error and the tree after `ensureAndCreate` are those `EnsureProps` describes |
| `Zookeeper.ZkClient.EnsureRoot` | discovery/zookeeper/zk.go:108-111 | the root node is ensured; a failure closes the connection |
| `Zookeeper.ZkClient.FlushResolver` | discovery/zookeeper/zk.go:167-172 | the service's resolver, if any, re-resolves once |
| `Zookeeper.ZkClient.FlushResolverAndDeleteLocal` | discovery/zookeeper/zk.go:160-164 | the service re-resolves, and exactly its cache entry is removed |
| `Zookeeper.ZkClient.RefreshTick` | discovery/zookeeper/zk.go:147-154 | a tick re-resolves every resolver once, keeps the resolver names, and empties the connection cache |
| `Zookeeper.ZkClient.CreateTempNode` | discovery/zookeeper/register.go:49-59 | a sequential node `<service path>/<addr>_<n>` holding the address is created and returned; on failure the result is "" with the wrapped error and the tree is unchanged |
| `Zookeeper.ZkClient.Register` | discovery/zookeeper/register.go:67-85 | registration succeeds exactly when the service node is ensured, the address dials and the node is created; any failure leaves the registration fields unchanged; success records name, `host:port`, the created node and `isRegistered`, and the ensemble is the ensured tree plus that one node, listed last under the service, with the counter advanced; a dial or create failure after the ensure leaves the ensured tree, child lists and counter as they were, and a create failure is the wrapped create fault |
| `Zookeeper.ZkClient.RegisterNode` | discovery/zookeeper/register.go:76-84 | the end of `Register`: the temporary node is added, listed last under the service, with the counter advanced, and the registration is recorded; or the wrapped create fault is returned and neither the client's registration nor the ensemble changes |
| `Zookeeper.ZkClient.UnRegister` | discovery/zookeeper/register.go:89-104 | a failed delete changes nothing; otherwise the node is gone from the tree and from every child list, the registration is forgotten, and the cache and resolver table are emptied |
| `Zookeeper.ZkClient.CreateRpcRootNodes` | discovery/zookeeper/register.go:36-43 | service nodes are ensured in list order; existing data is kept; success means every node exists; a failure is exactly the `ensureAndCreate` error of the first service that failed, with only earlier nodes added; success adds no node other than the service nodes |
| `Zookeeper.ZkClient.FetchAddrs` | discovery/zookeeper/discover.go:124-132 | the read loop returns what `ReadAddrs` specifies |
| `Zookeeper.ZkClient.GetConnsRemote` | discovery/zookeeper/discover.go:109-135 | an ensure failure returns its error; otherwise the lookup returns what `RemoteAddrs` specifies, with no partial list on failure; the only watch it may add is on the service node, and it is there on success |
| `Zookeeper.ZkClient.DialEach` | discovery/zookeeper/discover.go:176-183 | the dial loop returns what `DialAll` specifies |
| `Zookeeper.ZkClient.GetConns` | discovery/zookeeper/discover.go:161-187 | cached connections are returned without any lookup; on a miss the result is `FetchConns`, the tree is the ensured tree, at most the service node gains a watch, and the cache is written only on success |
| `Zookeeper.ZkClient.FetchRemote` | discovery/zookeeper/discover.go:166-184 | the cache-miss path returns `FetchConns` of the ensure result, the remote addresses of the ensured tree and the dials, adding at most a watch on the service node |
| `Zookeeper.ZkClient.GetConnTarget` | discovery/zookeeper/discover.go:199-203 | `GetConn` dials `<scheme>:///<service>` with the client's options, then the balancer configuration, then the caller's options, and fails exactly when that dial does |
| `Zookeeper.ZkClient.HandleEvent` | discovery/zookeeper/discover.go:53-95 | data-changed, created, deleted and not-watching events change nothing; a session event takes the `SessionStep`; a child event on a path of more than one part drops exactly the cache entry of its last segment and re-resolves it, and a one-part path is ignored |
| `Zookeeper.ZkClient.HandleSession` | discovery/zookeeper/discover.go:56-77 | Disconnected sets the flag and Connected clears it; HasSession re-creates the temporary node only for a registered, connected client, replacing `node` only on success, with the node listed last under the service and the counter advanced; other states change nothing |
| `Zookeeper.Authenticate` | discovery/zookeeper/zk.go:95-101 | digest credentials `user:password` are added only when both are non-empty; a failure closes the connection and returns the wrapped error |
| `Zookeeper.Configure` | discovery/zookeeper/zk.go:70-82 | the client literal with the options applied in order |
| `Zookeeper.NewZkClient` | discovery/zookeeper/zk.go:68-118 | a connect failure is wrapped; otherwise the client runs exactly when authentication and the root node succeed, with the options applied in order and the ticker then reset to the default; a failure after connecting closes the connection |
| `Zookeeper.StartProps` | discovery/zookeeper/zk.go:95-111 | a connected client starts exactly when authentication (if asked for) and the root node succeed, and then `/<scheme>` exists; nothing else is added and no data changes |
| `Zookeeper.RegistrationRun` | discovery/zookeeper/register.go:80-100 | across any sequence of `Register` and `UnRegister` calls, an unregistered client holds no node |
| `DataUtil.SliceRef.constructor` | utils/datautil/datautil.go:166 | a slice variable holding the given elements |
| `DataUtil.SliceSub` | utils/datautil/datautil.go:15-51 | `a` itself, duplicates included, when `b` is empty; otherwise the first occurrence of each value of `a` not in `b`, in order |
| `DataUtil.SliceSubMeaning` | utils/datautil/datautil.go:15-51 | the non-trivial result holds exactly the values of `a` missing from `b`, each once |
| `DataUtil.SliceAnySub` | utils/datautil/datautil.go:73-87 | the elements of `a` whose key no element of `b` has, in order, duplicates kept |
| `DataUtil.DistinctAny` | utils/datautil/datautil.go:90-102 | the first element of each key, in input order |
| `DataUtil.DedupByPair` | utils/datautil/datautil.go:122-127 | deduplicating one or two values, as the short-cut branches of `Distinct` do |
| `DataUtil.Distinct` | utils/datautil/datautil.go:118-131 | the distinct values in first-occurrence order, the short-cut branches included |
| `DataUtil.Delete` | utils/datautil/datautil.go:134-163 | no index returns the input; a single index counts from the end when negative and is ignored past the end; several indices remove every listed valid position, keeping the order of the rest |
| `DataUtil.DeleteAt` | utils/datautil/datautil.go:166-170 | deletes as `Delete` does and stores the result through the `*[]E` argument |
| `DataUtil.IndexAny` | utils/datautil/datautil.go:173-181 | the least position whose key equals the key of `e`, or -1 exactly when there is none |
| `DataUtil.IndexOf` | utils/datautil/datautil.go:184-188 | the least position holding `e`, or -1 exactly when `e` is absent |
| `DataUtil.Contain` | utils/datautil/datautil.go:191-193 | true exactly when `e` occurs |
| `DataUtil.DuplicateAny` | utils/datautil/datautil.go:196-206 | true exactly when two different positions hold elements with equal keys |
| `DataUtil.Duplicate` | utils/datautil/datautil.go:209-213 | true exactly when two different positions hold equal values |
| `DataUtil.DuplicateIffDedupShorter` | utils/datautil/datautil.go:209-213 | a slice has a duplicate exactly when `Distinct` shortens it |
| `DataUtil.HasKey` | utils/datautil/datautil.go:278-284 | a nil map has no key; otherwise Go's membership test |
| `DataUtil.Min` | utils/datautil/datautil.go:287-295 | an element of the list no larger than any other |
| `DataUtil.Max` | utils/datautil/datautil.go:298-306 | an element of the list no smaller than any other |
| `DataUtil.MinString` | utils/datautil/datautil.go:287-295 | `Min` on strings under Go's byte-wise order |
| `DataUtil.MaxString` | utils/datautil/datautil.go:298-306 | `Max` on strings under Go's byte-wise order |
| `DataUtil.Paginate` | utils/datautil/datautil.go:308-324 | page `p` of size `s` is `es[(p-1)*s .. min(p*s, len)]`; it is empty for a non-positive page or size or a start past the end, and never longer than `s` |
| `DataUtil.PaginateFinds` | utils/datautil/datautil.go:308-324 | every element appears on the page of its position, at its offset |
| `DataUtil.BothExistAny` | utils/datautil/datautil.go:327-367 | empty for no lists or any empty list; otherwise exactly one element per key common to all lists, the one the smallest list holds last for that key |
| `DataUtil.CommonKeys` | utils/datautil/datautil.go:349-365 | the entries of the chosen key map whose key every list has, each key once |
| `DataUtil.KeyMaps` | utils/datautil/datautil.go:331-348 | one key map per list and the first list with fewest keys, or a stop at the first empty list |
| `DataUtil.KeyMapOf` | utils/datautil/datautil.go:338-343 | the map from each key to the last element with it |
| `DataUtil.InOthers` | utils/datautil/datautil.go:351-360 | whether all maps but the chosen one hold the key |
| `DataUtil.InOthersMeansInAll` | utils/datautil/datautil.go:350-363 | the inner test is the same as "the key is in every list" |
| `DataUtil.InAllFromSmallest` | utils/datautil/datautil.go:350 | visiting the keys of one list misses no common key |
| `DataUtil.BothExist` | utils/datautil/datautil.go:370-374 | empty for no lists or any empty list; otherwise exactly the values in every list, each once |
| `DataUtil.Single` | utils/datautil/datautil.go:464-479 | exactly the values in one of `a` and `b` but not both, each once |
| `DataUtil.CountEach` | utils/datautil/datautil.go:466-471 | counting a list of distinct values adds one to each |
| `DataUtil.OnceKeys` | utils/datautil/datautil.go:473-477 | the keys counted exactly once, each once |
| `DataUtil.Complete` | utils/datautil/datautil.go:396-398 | true exactly when `a` and `b` hold the same values, ignoring order and repetition |
| `DataUtil.Equal` | utils/datautil/datautil.go:451-461 | true exactly when the slices are equal |
| `DataUtil.Order` | utils/datautil/datautil.go:482-502 | the input itself when either list is empty; otherwise the groups of the listed keys in list order, each in original order, then every other group once; always a permutation of `ts` |
| `DataUtil.GroupByKey` | utils/datautil/datautil.go:486-491 | every key of `ts` maps to its elements, in order |
| `DataUtil.TakeGroups` | utils/datautil/datautil.go:493-497 | the groups of the listed keys in list order, each taken once, and the map keeps only the other keys |
| `DataUtil.AppendGroups` | utils/datautil/datautil.go:498-500 | the remaining groups, one per remaining key, in visiting order |
| `DataUtil.OrderPtr` | utils/datautil/datautil.go:504-507 | orders as `Order` does (the listed groups in `es` order, then every other group once), a permutation, and stores the result through the `*[]E` argument |
| `DataUtil.GetSwitchFromOptions` | utils/datautil/datautil.go:613-621 | a switch is off exactly when the options hold the key set to false |
| `DataUtil.GetElemByIndex` | utils/datautil/datautil.go:635-641 | the element at a valid index, an error exactly for any other |
| `DataUtilSpec.KeysOfMembers` | utils/datautil/datautil.go:22-25 | a key is in the key set exactly when some element has it |
| `DataUtilSpec.DedupByProps` | utils/datautil/datautil.go:90-102 | deduplication loses no key, repeats none and never lengthens |
| `DataUtilSpec.DedupByLength` | utils/datautil/datautil.go:196-213 | deduplication removes nothing exactly when no two elements share a key |
| `DataUtilSpec.DedupIdMembers` | utils/datautil/datautil.go:118-131 | deduplicating by value keeps exactly the values, each once |
| `DataUtilSpec.DedupByFirst` | utils/datautil/datautil.go:94-99 | each kept element is the first one with its key |
| `DataUtilSpec.DedupByPrefix` | utils/datautil/datautil.go:90-102 | deduplication keeps input order: a prefix deduplicates to a prefix |
| `DataUtilSpec.WithoutProps` | utils/datautil/datautil.go:73-87 | filtering keeps exactly the elements whose key is not excluded |
| `DataUtilSpec.GroupSplit` | utils/datautil/datautil.go:493-497 | taking one group out of the remainder loses no element |
| `DataUtilSpec.GroupedSplit` | utils/datautil/datautil.go:493-497 | the leading groups and the rest hold every element of `ts` once |
| `DataUtilSpec.ConcatGroupsSplit` | utils/datautil/datautil.go:498-500 | appending the groups of fresh keys moves exactly those elements |
| `DataUtilSpec.OrderedIsPermutation` | utils/datautil/datautil.go:482-502 | the shape of `Order`'s result is a permutation of `ts` |
| `DataUtilSpec.KeyMapProps` | utils/datautil/datautil.go:338-343 | the key map has every key of the list and maps it to an element with it |
| `DataUtilSpec.FirstSmallest` | utils/datautil/datautil.go:345-347 | the first position holding the least value |
| `DataUtilSpec.Sizes` | utils/datautil/datautil.go:345 | `len(kv)` of each key map is its number of distinct keys |
| `DataUtilSpec.KeepExceptOne` | utils/datautil/datautil.go:143-146 | dropping one valid position is the splice `es[:i] + es[i+1:]` |
| `DataUtilSpec.KeepExceptKeeps` | utils/datautil/datautil.go:150-162 | every kept element sits at a position that was not dropped |
| `DataUtilSpec.NormalizedSetMembers` | utils/datautil/datautil.go:150-156 | the dropped positions are exactly those the indices name |
| `DataUtilSpec.DeletedOneAgreesWithMany` | utils/datautil/datautil.go:134-163 | one index and the same index twice delete the same element |
| `DataUtilSpec.DeletedFromEnd` | utils/datautil/datautil.go:139-146 | a negative index `-k` deletes the `k`-th element from the end |
| `Errs.WithDetail` | errs/codeerr.go:52-64 | same code and message; the detail is the new text, after the old one and ", " when there was one |
| `Errs.WithDetailTwice` | errs/codeerr.go:52-64 | details accumulate left to right |
| `Errs.CodeErrorText` | errs/codeerr.go:96-105 | `Error()` is the decimal code, a space and the message, then a space and the detail only when there is one |
| `Errs.CodeErrorTextStartsWithCode` | errs/codeerr.go:96-105 | the code reads back from the text up to the first space |
| `Errs.PairsAt` | errs/error.go:80-95 | pair `i` renders as key `2i`, "=", and its value, or MISSING after an odd trailing key |
| `Errs.PairsProps` | errs/error.go:85-94 | every pair is `key=value`, and an odd list ends with `key=MISSING` |
| `Errs.RenderEmpty` | errs/error.go:74-75 | `toString` with no pairs returns the message unchanged |
| `Errs.RenderNonEmpty` | errs/error.go:80-96 | a rendering with a pair is never empty |
| `Errs.RenderFirst` | errs/error.go:78-88 | the first pair follows the message, after ", " only when the message is non-empty |
| `Errs.RenderNext` | errs/error.go:80-95 | every later pair follows after ", " |
| `Errs.ToString` | errs/error.go:73-98 | the buffer loop renders exactly `Render` |
| `Errs.New` | errs/error.go:36-40 | an errorString holding the rendered message, whose `Error()` is the message itself when there are no pairs |
| `Errs.ErrorStringIs` | errs/error.go:48-54 | false for nil; true exactly for an errorString with equal text |
| `Errs.ErrorStringIsIgnoresWrapped` | errs/error.go:48-54 | an errorString matches itself but not a wrapped copy |
| `Errs.Wrap` | errs/codeerr.go:122-124 | nil stays nil and anything else gets a layer |
| `Errs.WrapMsg` | errs/codeerr.go:127-133 | nil stays nil; otherwise a message layer holding the rendered key/value text, under a stack layer |
| `Errs.Layers` | errs/codeerr.go:108-119 | the chain of an error, outermost first, each layer the cause of the one before, ending at one without a cause |
| `Errs.Innermost` | errs/codeerr.go:108-119 | the last layer of the chain |
| `Errs.InnermostIdempotent` | errs/codeerr.go:108-119 | unwrapping twice is unwrapping once |
| `Errs.WrapMsgTransparent` | errs/codeerr.go:122-133 | wrapping never changes what `Unwrap` finds |
| `Errs.Unwrap` | errs/codeerr.go:108-119 | the loop finds the last layer of the chain |
| `Errs.RelIs` | errs/codeerr.go:171-181 | a code is related to itself, and otherwise exactly to the children stored for it |
| `Errs.CodeErrorIs` | errs/codeerr.go:77-93 | true exactly when the unwrapped target is a coded error whose code equals or is related to the receiver's |
| `Errs.CodeErrorIsWrapped` | errs/codeerr.go:77-93 | a coded error matches itself however wrapped, and never matches nil |
| `Errs.AddUpTo` | errs/codeerr.go:156-166 | each step of `Add` keeps every parent already in the table |
| `Errs.AddUpToRelates` | errs/codeerr.go:156-166 | after the first steps, each earlier code is related to every later one |
| `Errs.AddRelatesLater` | errs/codeerr.go:156-166 | after `Add(c0..cn)`, `Is(ci, cj)` holds for all `i < j` |
| `Errs.AddMonotone` | errs/codeerr.go:156-166 | `Add` keeps every relation that held before |
| `Errs.AddOnlyListed` | errs/codeerr.go:156-166 | every new related pair comes from the list, in list order |
| `Errs.AddNotTransitive` | errs/codeerr.go:171-181 | separate `Add` calls are not closed transitively |
| `Errs.CodeRelation.constructor` | errs/codeerr.go:142-144 | a new relation is empty |
| `Errs.CodeRelation.Is` | errs/codeerr.go:171-181 | the relation's `Is` is `RelIs` on its table |
| `Errs.CodeRelation.Add` | errs/codeerr.go:152-168 | fewer than two codes is the wrapped error "codes length must be greater than 2" with the codes rendered, and changes nothing; otherwise each code becomes the parent of every code listed after it |
| `Errs.CodeRelation.AddChildren` | errs/codeerr.go:158-165 | the inner loop adds every listed code to the parent's set |
| `Encrypt.PadLength` | utils/encrypt/encryption.go:67 | the pad length is between 1 and the block size, fills the block, and is a whole block when the data already fills one |
| `Encrypt.Pad` | utils/encrypt/encryption.go:66-70 | the padded data is a multiple of the block size, strictly longer, starts with the data, and every added byte is the pad length (its low eight bits) |
| `Encrypt.Unpad` | utils/encrypt/encryption.go:73-80 | empty data is an error; otherwise as many trailing bytes as the last byte says are dropped |
| `Encrypt.PadIsUnpaddable` | utils/encrypt/encryption.go:66-80 | padded data always satisfies what unpadding needs, for blocks up to 255 bytes |
| `Encrypt.UnpadPad` | utils/encrypt/encryption.go:66-80 | round trip: unpadding padded data gives the data back, for every block size from 1 to 255 |
| `Encrypt.UnpadIgnoresOtherPadding` | utils/encrypt/encryption.go:78-79 | only the last byte is consulted: corrupted padding bytes before it go unnoticed |
| `Encrypt.PadWrapsAt256` | utils/encrypt/encryption.go:68 | with a 256-byte block the pad byte wraps to 0 and unpadding removes nothing |
| `Env.GetString` | env/env.go:34-43 | the set value, even an empty one, or the default when unset |
| `Env.GetInt` | env/env.go:47-60 | unset gives the default and nil; a decimal integer gives its value and nil; anything else gives the default and the wrapped conversion error, whose text quotes the value as `strconv.Quote` does |
| `Env.GetBool` | env/env.go:81-94 | the same three cases, with `ParseBool` |
| `Env.GetIntAfterSet` | env/env.go:47-60 | an integer written with `Itoa` reads back exactly, whatever the default |
| `Env.GetBoolAfterSet` | env/env.go:81-94 | a boolean written with `FormatBool` reads back exactly |
| `Env.GetIntOverflowFirst` | env/env.go:51-54 | a value such as `99999999999999999999a` gives the default and the wrapped "value out of range" conversion error |
| `Env.GetIntBadValue` | env/env.go:52-55 | an unparsable value gives the default and an error |
| `Env.GetIntQuotedValue` | env/env.go:52-55 | the value `a"b` appears escaped as `"a\"b"` in the conversion error |
| `Strconv.Itoa` | errs/codeerr.go:98 | a non-empty rendering that starts with '-' exactly for a negative number |
| `Strconv.Atoi` | env/env.go:51 | a syntax error exactly for text that is not an optional sign and digits and whose leading digits do not overflow 64 unsigned bits; a range error for a number outside 64 bits or an overflowing digit run before a bad character; success exactly for a well-formed 64-bit value, which is the value the digits and sign show |
| `Strconv.AtoiOverflowFirst` | env/env.go:51 | digits worth more than 64 unsigned bits followed by anything are a range error, as `ParseUint` checks the range before later characters |
| `Strconv.AtoiItoa` | env/env.go:51 | `Atoi` reads back what `Itoa` writes, for every 64-bit integer |
| `Strconv.ParseBool` | env/env.go:85 | the six spellings of each truth value, and a syntax error otherwise |
| `Strconv.ParseFormatBool` | env/env.go:85 | `ParseBool` reads back what `FormatBool` writes |
| `Strconv.UnquoteQuote` | env/env.go:51 | the body `Quote` writes into a conversion error decodes back to the value: quoting loses nothing and leaves no bare `"` |
| `Strconv.QuotePlain` | env/env.go:51 | a value of printable characters other than `"` and `\` is quoted as it stands |
| `Strconv.QuoteEscapes` | env/env.go:51 | a double quote, a backslash and a newline are written as `\"`, `\\` and `\n` |
| `Fmt.SprintfNoVerbs` | db/oceanutil/common.go:67 | text without verbs is written as it is, and operands beyond it are listed after `%!(EXTRA` |
| `Fmt.SprintfMissing` | db/oceanutil/common.go:67 | a verb with no operand is written `%!s(MISSING)` or `%!d(MISSING)` |
| `Fmt.SprintfWrongKind` | db/oceanutil/common.go:67 | an operand of the wrong kind is written as its type and value |
| `Fmt.SprintfExtra` | db/oceanutil/common.go:67 | an operand beyond the verbs is listed after the text |
| `OceanUtil.Config.constructor` | db/oceanutil/verify.go:15 | the configuration holds the given settings |
| `OceanUtil.Config.ValidateAndSetDefaults` | db/oceanutil/verify.go:15-31 | an empty host, then an empty schema, is an error; a set DSN is kept; an empty DSN is built, or "dns is not fmt" is returned when building fails; only the DSN may change |
| `OceanUtil.CredentialsLayout` | db/oceanutil/common.go:54-61 | `user@tenant#cluster` with both names, `user@tenant` with only a tenant, and `user` otherwise; a cluster without a tenant is dropped |
| `OceanUtil.BuildOceanURI` | db/oceanutil/common.go:49-71 | no configuration and an empty user name are errors, and every other configuration gives a DSN |
| `OceanUtil.OceanFormatLayout` | db/oceanutil/common.go:48 | the DSN format applied to its six operands, written out |
| `OceanUtil.BuildOceanURILayout` | db/oceanutil/common.go:67 | the DSN is `creds:password@tcp(host:port)/schema?charset=<charset>&parseTime=True&loc=Local` |
| `OceanUtil.ShouldRetry` | db/oceanutil/common.go:79-93 | retry exactly when the context is not done |
| `OceanUtil.Backoff` | db/oceanutil/common.go:112 | the delay after attempt `i` is `2^i` seconds, at least one second |
| `OceanUtil.InitializeDBWithRetry` | db/oceanutil/common.go:96-117 | at most `MaxRetry` attempts, none with `MaxRetry <= 0` (no handle, nil error); a done context stops with its error; the first success is returned; each failure is followed by its back-off; after the last failure its error is returned |
| `MongoUtil.CredentialsLayout` | db/mongoutil/common.go:35-39 | the credential part is `user:password@` when both are set and empty otherwise |
| `MongoUtil.BuildMongoURILayout` | db/mongoutil/common.go:41 | `mongodb://` + credentials + hosts joined by "," + "/" + database + `?maxPoolSize=` + the decimal pool size |
| `MongoUtil.PoolSizeRoundTrip` | db/mongoutil/common.go:41 | the pool size reads back after the last '=' |
| `MongoUtil.ShouldRetry` | db/mongoutil/common.go:50-64 | never once the context is done; a command error is retried exactly when its code is neither 13 nor 18; any other error is retried |
| `Mw.ExtractFunctionName` | mw/rpc_client_interceptor.go:149-155 | the text after the last "/", or the whole name when there is none |
| `Mw.ExtractFunctionNameOfMethod` | mw/rpc_client_interceptor.go:149-155 | a full method name `/pkg.Service/Method` yields `Method` |
| `Mw.CustomHeaders` | mw/rpc_client_interceptor.go:102-113 | the custom-header loop fails only with a non-nil error |
| `Mw.RpcMetadata` | mw/rpc_client_interceptor.go:98-144 | `getRpcContext` fails only with a non-nil error |
| `Mw.CustomHeadersFailurePersists` | mw/rpc_client_interceptor.go:103-110 | the loop stops at a failing key: a failing prefix fails the whole list with that error |
| `Mw.CustomHeadersSucceed` | mw/rpc_client_interceptor.go:103-112 | the loop succeeds exactly when every listed key holds a non-empty list of strings |
| `Mw.CustomHeadersFirstFailure` | mw/rpc_client_interceptor.go:104-110 | a failure is the internal-server error for the first unusable key: "ctx missing key" or "ctx key value is empty" |
| `Mw.CustomHeadersKeys` | mw/rpc_client_interceptor.go:111 | the metadata holds exactly the lower-cased listed keys |
| `Mw.CustomHeadersValue` | mw/rpc_client_interceptor.go:111 | a listed key holds the values of its last listing |
| `Mw.MdKeysLowered` | mw/rpc_client_interceptor.go:113-139 | the five context keys are stored under their lower-cased forms |
| `Mw.RpcMetadataFailures` | mw/rpc_client_interceptor.go:102-121 | the context fails exactly on an unusable listed key, then on a missing or non-string operation id (the ArgsError code error) |
| `Mw.RpcMetadataCore` | mw/rpc_client_interceptor.go:113-122 | on success the metadata holds the operation id, and the key list when one was given |
| `Mw.RpcMetadataOptional` | mw/rpc_client_interceptor.go:125-140 | opUserID, platform and connID are present exactly when given as strings |
| `Mw.RpcMetadataCustom` | mw/rpc_client_interceptor.go:103-113 | a custom header keeps the values of its last listing unless a reserved key overwrites it |
| `Mw.CopyCustomHeaders` | mw/rpc_client_interceptor.go:102-114 | the copy loop returns what `CustomHeaders` specifies |
| `Mw.GetRpcContext` | mw/rpc_client_interceptor.go:98-144 | the outgoing metadata is `RpcMetadata`, or its error and no metadata |
| `Mw.TranslateError` | mw/rpc_client_interceptor.go:63-91 | the translated error is nil exactly when the call succeeded |
| `Mw.TranslateErrorUnwrapped` | mw/rpc_client_interceptor.go:74-91 | an error without a status gives the internal-server error; status code 0 gives a code-500 error; otherwise the status code and message, with the ErrorInfo trail joined by "->" plus the cause as detail when the first detail is one |
| `Mw.RpcClientInterceptor` | mw/rpc_client_interceptor.go:45-92 | a nil context fails before the call; a failing `getRpcContext` returns its error; otherwise the call gets the metadata and its error is translated |

## Left out

- I/O: the network behind `zk.Connect`, the ZooKeeper requests, `grpc.Dial` and `grpc.DialContext`, and `connectOcean`. Each appears as a parameter (a store, a dial oracle, a given outcome). The event channel is left out; events arrive one call at a time.
- Concurrency and time are left out: the goroutines `refresh` and `watch` with their `select` and context cancellation, the mutex, the ticker's timing, and `UnRegister`'s one-second sleep. Each handler is one atomic step. The ticker is its period in seconds (0 before one is set), so `WithFreq` only sets that number.
- `Zookeeper.ZkClient.UseOption`, `Zookeeper.Configure` and `Zookeeper.NewZkClient`: `WithFreq` with a non-positive period makes Go's `time.NewTicker` (discovery/zookeeper/options.go:59-63) panic inside `NewZkClient`. The model accepts any period and returns a client there.
- `resolver.Register` and the `Resolver` type (its `Build` and `ResolveNowZK`) are not part of this model. The resolver table is a map from service name to the number of re-resolve requests.
- Logging is left out: every logger call, `nilLog`, and the `zk.WithLogger` option. A logger is an opaque value that `WithLogger` sets.
- `Close`, `GetZkConn`, `GetClientLocalConns`, `CloseConn` and `GetUserIdHashGatewayHost` are left out. They return or close a handle and hold no logic beyond that.
- `Zookeeper.ZkClient.GetNode` (discovery/zookeeper/zk.go:185-187) and `Zookeeper.ZkClient.GetSelfConnTarget` (discovery/zookeeper/discover.go:209-211) are plain field reads with no contract of their own. What they return is stated by the contracts of `Register`, `RegisterNode` and `UnRegister`.
- `ZkStore.Store.CreateProtectedEphemeralSequential`: the library's protected GUID prefix and the zero-padded ten-digit counter are simplified to the name followed by the decimal counter. The path is given as parent and child name. Ephemerality (the node goes away with the session) is not modelled.
- `ZkStore.Store.Create`: three simplifications of a ZooKeeper create. A new persistent node is not added to its parent's child list. A missing parent is not an error; ZooKeeper returns ErrNoNode there. The sequence counter `nextSeq` is one per store, while ZooKeeper numbers sequential nodes per parent.
- `ZkStore.Store.Delete`: the empty path, which `UnRegister` passes for a client that never registered, gets the missing-node error; the ZooKeeper library rejects it with ErrInvalidPath before any request. Both are non-nil, and path validation in general is not modelled.
- `Zookeeper.NoAddrError`: the "local conn" key/value pair, which prints the cache map, is left out of the "addr is empty" message.
- `Fmt`: only the `%s` and `%d` verbs, and `%v` of string lists, are modelled, which is all the modelled code formats. `fmt.Errorf` errors are opaque values with their text.
- `OceanUtil.InitializeDBWithRetry`: the back-off `time.Second << i` is recorded in whole seconds in the `sleeps` list instead of slept. Its 64-bit overflow for 63 or more retries is not modelled. The discarded `errs.WrapMsg` call at db/oceanutil/common.go:111 has no effect and is not modelled.
- `Mw`: the protocol constants (`RpcCustomHeader`, `OperationID`, `OpUserID`, `OpUserPlatform`, `ConnID`) come from a package that is not part of this model; its values are written into the model. `metadata.MD.Set` lower-cases keys; the model lower-cases ASCII only.
- `Mw.RpcClientInterceptor`: the request and response bodies, the client connection and the call options are not modelled. The call is an oracle on the outgoing metadata.
- `Strs.ToLower`: only ASCII letters are lowered; Go lowers all Unicode letters.
- `Encrypt`: `Md5`, `AesEncrypt` and `AesDecrypt` are foreign cryptographic primitives and are left out; only the padding is modelled. `Encrypt.Unpad` and `DataUtil.Delete` require what the Go code needs to avoid a slice-bounds panic, and `DataUtil.Min`, `DataUtil.Max`, `DataUtil.MinString` and `DataUtil.MaxString` require at least one argument, since Go's `e[0]` panics on none; a panic is not a value.
- `DataUtil`: `StructFieldNotNilReplace` and `CopyStructFields` (reflection), `UniqueJoin` (JSON), `Sort`/`SortAny` (library sort), the float instantiations of `Min`/`Max`, and the trivial one-liners (`Keys`, `Values`, `If`, `ToPtr`, `Slice`, `Filter`, `Batch`, `InitSlice`, `InitMap`, `SetSwitchFromOptions`, the `SliceToMap` family) are left out.
- `DataUtil.Delete` and `DataUtil.DeleteAt`: the single-index case `append(es[:i], es[i+1:]...)` shifts the elements of the caller's backing array in place, so the caller's own slice afterwards reads, for example, `[b c c]` for `[a b c]` and index 0. The model returns a fresh sequence and does not capture this aliasing update.
- `DataUtil.Single`: the `uint8` counters never exceed 2, so their wrap-around does not arise and is not modelled.
- `Env`: `GetFloat64` (floating point) is left out.
- Go's `int` is taken as 64 bits where text is parsed (`Atoi`). Other integers are unbounded.
- `Strconv.Quote`: characters above U+00FF are copied as they are; Go escapes those that Unicode does not class as printable as `\u` or `\U` sequences. Everything up to U+00FF is escaped as Go does.
