/**
 * The ZooKeeper discovery client: a service registers its address as a sequential child
 * of `/<scheme>/<service>`, and a caller reads those children, dials each address and
 * caches the connections per service. Session events and the periodic refresh drop
 * cached connections and re-resolve. The ensemble is a `ZkStore.Store`; dialing is an
 * oracle from target and options to the error gRPC returns.
 */
module Zookeeper {
  import opened Wrappers
  import Strs
  import Strconv
  import Errs
  import Fmt
  import ZkStore
  import opened ZkOptions

  /** The refresh period the client restarts with: thirty minutes, in seconds. */
  const DefaultFreq: int := 30 * 60
  /** The session timeout, in seconds, before any option. */
  const DefaultTimeout: int := 5

  /** A gRPC client connection: the target dialled and the options used. */
  datatype ClientConn = ClientConn(target: string, options: seq<DialOption>)

  /** A resolver address: the registered address and the service it belongs to. */
  datatype Address = Address(addr: string, serverName: string)

  datatype EventType =
    | EventSession
    | EventNodeCreated
    | EventNodeDeleted
    | EventNodeDataChanged
    | EventNodeChildrenChanged
    | EventNotWatching

  /** The session states the event handler tells apart; any other state is `StateOther`. */
  datatype SessionState = StateHasSession | StateDisconnected | StateConnected | StateOther(code: int)

  /** A ZooKeeper event: its type, the session state and the path it concerns. */
  datatype Event = Event(kind: EventType, state: SessionState, path: string)

  /** The error `grpc.Dial`/`grpc.DialContext` returns for a target and its options. */
  type Dialer = (string, seq<DialOption>) -> Errs.Error

  /** The settings of the client literal in `NewZkClient`, before any option runs. */
  const InitialSettings: Settings := Settings("", "", [], 0, DefaultTimeout, NilLog, "")

  /** `net.JoinHostPort`: a host holding a colon (an IPv6 address) is put in brackets. */
  function JoinHostPort(host: string, port: string): string
  {
    if ':' in host then "[" + host + "]:" + port else host + ":" + port
  }

  /** `%v` of a `[]string`. */
  function ListText(ss: seq<string>): string
  {
    "[" + Strs.Join(ss, " ") + "]"
  }

  /** `%s:///%s`, the target of a service. */
  const TargetFormat: Fmt.Format := Fmt.VerbS(Fmt.Text(":///", Fmt.VerbS(Fmt.End)))

  /** `{"LoadBalancingPolicy": "%s"}`, the default service configuration. */
  const BalancerFormat: Fmt.Format := Fmt.Text("{\"LoadBalancingPolicy\": \"", Fmt.VerbS(Fmt.Text("\"}", Fmt.End)))

  function ConnTarget(scheme: string, serviceName: string): string
  {
    Fmt.Sprintf(TargetFormat, [Fmt.S(scheme), Fmt.S(serviceName)])
  }

  function BalancerConfig(balancerName: string): string
  {
    Fmt.Sprintf(BalancerFormat, [Fmt.S(balancerName)])
  }

  /** The target of a service is the scheme, `:///` and the service name. */
  lemma ConnTargetLayout(scheme: string, serviceName: string)
    ensures ConnTarget(scheme, serviceName) == scheme + (":///" + serviceName)
  {
    var a := [Fmt.S(scheme), Fmt.S(serviceName)];
    var f := TargetFormat;
    assert Fmt.Sprintf(f.next.next.next, a[2..]) == "";
    assert serviceName + "" == serviceName;
    assert a[1..][1..] == a[2..];
    assert Fmt.Sprintf(f.next.next, a[1..]) == serviceName;
    assert Fmt.Sprintf(f.next, a[1..]) == ":///" + serviceName;
    assert a[1..] == [Fmt.S(serviceName)];
    assert Fmt.Sprintf(f, a) == scheme + Fmt.Sprintf(f.next, a[1..]);
  }

  /** The service configuration names the balancer, quoted. */
  lemma BalancerConfigLayout(balancerName: string)
    ensures BalancerConfig(balancerName) == "{\"LoadBalancingPolicy\": \"" + (balancerName + "\"}")
  {
    var a := [Fmt.S(balancerName)];
    var f := BalancerFormat;
    assert Fmt.Sprintf(f.next.next.next, a[1..]) == "";
    assert Fmt.Sprintf(f.next.next, a[1..]) == "\"}";
    assert Fmt.Sprintf(f.next, a) == balancerName + "\"}";
    assert Fmt.Sprintf(f, a) == "{\"LoadBalancingPolicy\": \"" + Fmt.Sprintf(f.next, a);
  }

  /** The port reads back after the last colon, and a plain host before the first one. */
  lemma JoinHostPortSplits(host: string, port: int)
    requires Strconv.MinInt64 <= port <= Strconv.MaxInt64
    ensures Strconv.Atoi(Strs.LastSegment(JoinHostPort(host, Strconv.Itoa(port)), ':')) == Success(port)
    ensures ':' !in host ==> Strs.Split(JoinHostPort(host, Strconv.Itoa(port)), ':')[0] == host
    ensures ':' in host ==> JoinHostPort(host, Strconv.Itoa(port))[0] == '['
  {
    var p := Strconv.Itoa(port);
    Strconv.ItoaChars(port, ':');
    Strconv.AtoiItoa(port);
    if ':' in host {
      var head := "[" + host + "]";
      assert JoinHostPort(host, p) == head + [':'] + p;
      Strs.LastSegmentAfterSep(head, ':', p);
    } else {
      assert JoinHostPort(host, p) == host + [':'] + p;
      Strs.LastSegmentAfterSep(host, ':', p);
      Strs.SplitFirst(host, ':', p);
    }
  }

  /** `ChildrenChanged` on a service path names that service: the last segment is the service. */
  lemma ServiceOfPath(root: string, serviceName: string)
    requires '/' !in serviceName
    ensures |Strs.Split(root + "/" + serviceName, '/')| > 1
    ensures Strs.LastSegment(root + "/" + serviceName, '/') == serviceName
    ensures var parts := Strs.Split(root + "/" + serviceName, '/'); parts[|parts| - 1] == serviceName
  {
    assert root + "/" + serviceName == root + ['/'] + serviceName;
    Strs.SplitAfterSep(root, '/', serviceName);
    Strs.LastSegmentAfterSep(root, '/', serviceName);
    Strs.NoSepCount(serviceName, '/');
    Strs.SplitLength(serviceName, '/');
    Strs.JoinSplit(serviceName, '/');
    var q := Strs.Split(serviceName, '/');
    assert |q| == 1;
    assert Strs.Join(q, "/") == q[0];
  }

  // ---------------------------------------------------------------------------------------
  // Specifications of the store reads and writes the client performs
  // ---------------------------------------------------------------------------------------

  /** The error `ensureAndCreate(path)` returns. */
  function EnsureError(s: ZkStore.Store, path: string): Errs.Error
    reads s`nodes, s`faults, s`races
  {
    match s.Exists(path)
    case Failure(e) => Errs.WrapMsg(e, "Exists failed", ["node", path])
    case Success(present) =>
      if present then Errs.Nil
      else
        var ce := s.CreateError(path);
        if ce != Errs.Nil && ce != ZkStore.ErrNodeExists then Errs.WrapMsg(ce, "Create failed", ["node", path])
        else Errs.Nil
  }

  /** The nodes after `ensureAndCreate(path)`. */
  function EnsuredNodes(s: ZkStore.Store, path: string): map<string, string>
    reads s`nodes, s`faults, s`races
  {
    if s.Exists(path) == Success(false) then s.NodesAfterCreate(path, "") else s.nodes
  }

  /** The error `ensureAndCreate` reports names the node and says which request failed. */
  predicate EnsureFailed(err: Errs.Error, path: string)
  {
    && err.WithStack? && err.cause.WithMessage?
    && (err.cause.message == Errs.Render("Exists failed", ["node", path])
        || err.cause.message == Errs.Render("Create failed", ["node", path]))
  }

  /**
   * After a successful `ensureAndCreate` the node exists; existing nodes keep their data;
   * nothing but the node itself is added, and nothing at all on failure. A node that is
   * already there, or that another client creates first, is not an error. The error is
   * always wrapped, so it is never ErrNodeExists itself.
   */
  lemma EnsureProps(s: ZkStore.Store, path: string)
    requires s.Valid()
    ensures EnsureError(s, path) == Errs.Nil ==> path in EnsuredNodes(s, path)
    ensures forall p :: p in s.nodes ==> p in EnsuredNodes(s, path) && EnsuredNodes(s, path)[p] == s.nodes[p]
    ensures EnsuredNodes(s, path).Keys <= s.nodes.Keys + {path}
    ensures EnsureError(s, path) != Errs.Nil ==> EnsuredNodes(s, path) == s.nodes && EnsureFailed(EnsureError(s, path), path)
    ensures ZkStore.ExistsReq(path) !in s.faults && path in s.nodes ==> EnsureError(s, path) == Errs.Nil
    ensures ZkStore.ExistsReq(path) !in s.faults && ZkStore.CreateReq(path) !in s.faults ==> EnsureError(s, path) == Errs.Nil
    ensures EnsureError(s, path) != ZkStore.ErrNodeExists
  {
    if s.Exists(path) == Success(false) && ZkStore.CreateReq(path) in s.faults {
      assert s.faults[ZkStore.CreateReq(path)] != ZkStore.ErrNodeExists;
    }
  }

  /** The addresses read from the children of `path`, in the order the server lists them. */
  function ReadAddrs(s: ZkStore.Store, path: string, children: seq<string>, serviceName: string): Result<seq<Address>, Errs.Error>
    reads s`nodes, s`faults, s`kids
  {
    if children == [] then Success([])
    else
      match ReadAddrs(s, path, children[..|children| - 1], serviceName)
      case Failure(e) => Failure(e)
      case Success(prev) =>
        var fullPath := path + "/" + children[|children| - 1];
        match s.Get(fullPath)
        case Failure(e) => Failure(Errs.WrapMsg(e, "get children error", ["fullPath", fullPath]))
        case Success(data) => Success(prev + [Address(data, serviceName)])
  }

  /** What `GetConnsRemote` returns once the service node is ensured. */
  function RemoteAddrs(s: ZkStore.Store, path: string, serviceName: string): Result<seq<Address>, Errs.Error>
    reads s`nodes, s`faults, s`kids
  {
    if ZkStore.ChildrenWReq(path) in s.faults then
      Failure(Errs.WrapMsg(s.faults[ZkStore.ChildrenWReq(path)], "children watch error", ["path", path]))
    else if path !in s.nodes then
      Failure(Errs.WrapMsg(ZkStore.ErrNoNode, "children watch error", ["path", path]))
    else
      match s.Children(path)
      case Failure(e) => Failure(Errs.WrapMsg(e, "get children error", ["path", path]))
      case Success(children) => ReadAddrs(s, path, children, serviceName)
  }

  /**
   * Reading succeeds exactly when every child can be read, and then gives one address per
   * child, in order, holding the child's data and the service name.
   */
  lemma {:induction false} ReadAddrsOk(s: ZkStore.Store, path: string, children: seq<string>, serviceName: string)
    ensures ReadAddrs(s, path, children, serviceName).Success? <==>
      forall i :: 0 <= i < |children| ==> s.Get(path + "/" + children[i]).Success?
    ensures ReadAddrs(s, path, children, serviceName).Success? ==>
      var r := ReadAddrs(s, path, children, serviceName).value;
      && |r| == |children|
      && forall i :: 0 <= i < |children| ==> r[i] == Address(s.nodes[path + "/" + children[i]], serviceName)
    decreases |children|
  {
    if children != [] {
      var front := children[..|children| - 1];
      ReadAddrsOk(s, path, front, serviceName);
      assert forall i :: 0 <= i < |front| ==> front[i] == children[i];
    }
  }

  /** A failure has the error of the first child that cannot be read. */
  lemma {:induction false} ReadAddrsFirstFailure(s: ZkStore.Store, path: string, children: seq<string>, serviceName: string)
    requires ReadAddrs(s, path, children, serviceName).Failure?
    ensures exists k :: (0 <= k < |children|
      && (forall i :: 0 <= i < k ==> s.Get(path + "/" + children[i]).Success?)
      && s.Get(path + "/" + children[k]).Failure?
      && ReadAddrs(s, path, children, serviceName).error ==
         Errs.WrapMsg(s.Get(path + "/" + children[k]).error, "get children error", ["fullPath", path + "/" + children[k]]))
    decreases |children|
  {
    var n := |children| - 1;
    var front := children[..n];
    assert forall i :: 0 <= i < |front| ==> front[i] == children[i];
    if ReadAddrs(s, path, front, serviceName).Failure? {
      ReadAddrsFirstFailure(s, path, front, serviceName);
      var k :| 0 <= k < |front|
        && (forall i :: 0 <= i < k ==> s.Get(path + "/" + front[i]).Success?)
        && s.Get(path + "/" + front[k]).Failure?
        && ReadAddrs(s, path, front, serviceName).error ==
           Errs.WrapMsg(s.Get(path + "/" + front[k]).error, "get children error", ["fullPath", path + "/" + front[k]]);
      assert front[k] == children[k];
    } else {
      ReadAddrsOk(s, path, front, serviceName);
      assert forall i :: 0 <= i < n ==> s.Get(path + "/" + children[i]).Success? by {
        forall i | 0 <= i < n ensures s.Get(path + "/" + children[i]).Success? {
          assert front[i] == children[i];
        }
      }
    }
  }

  /** Once a prefix of the children fails, the whole read fails with that error. */
  lemma {:induction false} ReadAddrsPrefixFailure(s: ZkStore.Store, path: string, children: seq<string>, k: nat, serviceName: string)
    requires k <= |children|
    requires ReadAddrs(s, path, children[..k], serviceName).Failure?
    ensures ReadAddrs(s, path, children, serviceName) == ReadAddrs(s, path, children[..k], serviceName)
    decreases |children| - k
  {
    if k < |children| {
      var n := |children| - 1;
      assert children[..n][..k] == children[..k];
      ReadAddrsPrefixFailure(s, path, children[..n], k, serviceName);
    } else {
      assert children[..k] == children;
    }
  }

  /** Under a valid store, a failed read always carries an error. */
  lemma RemoteAddrsFailure(s: ZkStore.Store, path: string, serviceName: string)
    requires s.Valid()
    ensures RemoteAddrs(s, path, serviceName).Failure? ==> RemoteAddrs(s, path, serviceName).error != Errs.Nil
  {
    if RemoteAddrs(s, path, serviceName).Failure? && s.Children(path).Success? && ZkStore.ChildrenWReq(path) !in s.faults && path in s.nodes {
      ReadAddrsFirstFailure(s, path, s.Children(path).value, serviceName);
    }
  }

  /**
   * On a healthy store every registered child is listed and readable, so the read gives
   * one address per listed child, holding its data; no children is an empty list.
   */
  lemma RemoteAddrsHealthy(s: ZkStore.Store, path: string, serviceName: string)
    requires s.Valid() && path in s.nodes
    requires ZkStore.ChildrenWReq(path) !in s.faults && ZkStore.ChildrenReq(path) !in s.faults
    requires forall c :: c in s.KidsOf(path) ==> ZkStore.GetReq(path + "/" + c) !in s.faults
    ensures RemoteAddrs(s, path, serviceName).Success?
    ensures var r := RemoteAddrs(s, path, serviceName).value;
      && |r| == |s.KidsOf(path)|
      && forall i :: 0 <= i < |r| ==> r[i] == Address(s.nodes[path + "/" + s.KidsOf(path)[i]], serviceName)
  {
    var children := s.KidsOf(path);
    forall i | 0 <= i < |children| ensures s.Get(path + "/" + children[i]).Success? {
      assert children[i] in children;
      assert path in s.kids && children[i] in s.kids[path];
    }
    ReadAddrsOk(s, path, children, serviceName);
  }

  /** Dialing every address in order, stopping at the first that fails. */
  function DialAll(addrs: seq<Address>, options: seq<DialOption>, dial: Dialer): Result<seq<ClientConn>, Errs.Error>
  {
    if addrs == [] then Success([])
    else
      match DialAll(addrs[..|addrs| - 1], options, dial)
      case Failure(e) => Failure(e)
      case Success(prev) =>
        var a := addrs[|addrs| - 1].addr;
        if dial(a, options) != Errs.Nil then Failure(Errs.WrapMsg(dial(a, options), "DialContext failed", ["addr.Addr", a]))
        else Success(prev + [ClientConn(a, options)])
  }

  /**
   * Dialing succeeds exactly when every address dials, and then gives one connection per
   * address, in address order; a failure always carries an error.
   */
  lemma {:induction false} DialAllOk(addrs: seq<Address>, options: seq<DialOption>, dial: Dialer)
    ensures DialAll(addrs, options, dial).Success? <==> forall i :: 0 <= i < |addrs| ==> dial(addrs[i].addr, options) == Errs.Nil
    ensures DialAll(addrs, options, dial).Success? ==>
      var r := DialAll(addrs, options, dial).value;
      && |r| == |addrs|
      && forall i :: 0 <= i < |addrs| ==> r[i] == ClientConn(addrs[i].addr, options)
    ensures DialAll(addrs, options, dial).Failure? ==> DialAll(addrs, options, dial).error != Errs.Nil
    decreases |addrs|
  {
    if addrs != [] {
      var front := addrs[..|addrs| - 1];
      DialAllOk(front, options, dial);
      assert forall i :: 0 <= i < |front| ==> front[i] == addrs[i];
    }
  }

  /** Once a prefix of the addresses fails, the whole dial fails with that error. */
  lemma {:induction false} DialAllPrefixFailure(addrs: seq<Address>, k: nat, options: seq<DialOption>, dial: Dialer)
    requires k <= |addrs|
    requires DialAll(addrs[..k], options, dial).Failure?
    ensures DialAll(addrs, options, dial) == DialAll(addrs[..k], options, dial)
    decreases |addrs| - k
  {
    if k < |addrs| {
      var n := |addrs| - 1;
      assert addrs[..n][..k] == addrs[..k];
      DialAllPrefixFailure(addrs[..n], k, options, dial);
    } else {
      assert addrs[..k] == addrs;
    }
  }

  /** The error for a service with no registered address. */
  function NoAddrError(serviceName: string, zkServers: seq<string>, zkRoot: string): Errs.Error
  {
    Errs.WrapMsg(Errs.Str("addr is empty"), "no conn for service",
      ["serviceName", serviceName, "ZkServers", ListText(zkServers), "zkRoot", zkRoot])
  }

  /** What `GetConns` returns on a cache miss, given the outcome of ensuring and reading the service. */
  function FetchConns(ensureErr: Errs.Error, remote: Result<seq<Address>, Errs.Error>, options: seq<DialOption>,
                      dial: Dialer, serviceName: string, zkServers: seq<string>, zkRoot: string): Result<seq<ClientConn>, Errs.Error>
  {
    if ensureErr != Errs.Nil then Failure(ensureErr)
    else match remote
      case Failure(e) => Failure(e)
      case Success(addrs) =>
        if addrs == [] then Failure(NoAddrError(serviceName, zkServers, zkRoot))
        else DialAll(addrs, options, dial)
  }

  /**
   * A cache miss succeeds exactly when the service is ensured, its addresses are read,
   * there is at least one, and every one dials; the connections then follow the addresses.
   * No addresses is the "addr is empty" error.
   */
  lemma FetchConnsOk(ensureErr: Errs.Error, remote: Result<seq<Address>, Errs.Error>, options: seq<DialOption>,
                     dial: Dialer, serviceName: string, zkServers: seq<string>, zkRoot: string)
    ensures var r := FetchConns(ensureErr, remote, options, dial, serviceName, zkServers, zkRoot);
      r.Success? <==> ensureErr == Errs.Nil && remote.Success? && remote.value != []
                      && forall i :: 0 <= i < |remote.value| ==> dial(remote.value[i].addr, options) == Errs.Nil
    ensures var r := FetchConns(ensureErr, remote, options, dial, serviceName, zkServers, zkRoot);
      r.Success? ==> (|r.value| == |remote.value|
        && forall i :: 0 <= i < |r.value| ==> r.value[i] == ClientConn(remote.value[i].addr, options))
    ensures ensureErr == Errs.Nil && remote == Success([]) ==>
      var r := FetchConns(ensureErr, remote, options, dial, serviceName, zkServers, zkRoot);
      r.Failure? && Errs.Innermost(r.error) == Errs.Str("addr is empty")
  {
    if ensureErr == Errs.Nil && remote.Success? {
      if remote.value != [] {
        DialAllOk(remote.value, options, dial);
      } else {
        Errs.WrapMsgTransparent(Errs.Str("addr is empty"), "no conn for service",
          ["serviceName", serviceName, "ZkServers", ListText(zkServers), "zkRoot", zkRoot]);
      }
    }
  }

  /** The resolver table after `flushResolver(name)`: that service's resolver re-resolves, if it exists. */
  function ResolvedOnce(resolvers: map<string, nat>, serviceName: string): map<string, nat>
  {
    if serviceName in resolvers then resolvers[serviceName := resolvers[serviceName] + 1] else resolvers
  }

  /** Flushing one service re-resolves only its own resolver, only if there is one, and adds none. */
  lemma ResolvedOnceProps(resolvers: map<string, nat>, serviceName: string)
    ensures ResolvedOnce(resolvers, serviceName).Keys == resolvers.Keys
    ensures serviceName in resolvers ==> ResolvedOnce(resolvers, serviceName)[serviceName] == resolvers[serviceName] + 1
    ensures forall k :: k in resolvers && k != serviceName ==> ResolvedOnce(resolvers, serviceName)[k] == resolvers[k]
  {
  }

  // ---------------------------------------------------------------------------------------
  // The client
  // ---------------------------------------------------------------------------------------

  class ZkClient {
    var zkServers: seq<string>
    var zkRoot: string
    var username: string
    var password: string
    var rpcRegisterName: string
    var rpcRegisterAddr: string
    var isRegistered: bool
    var scheme: string
    var timeout: int
    var conn: ZkStore.Store?
    var node: string
    /** The refresh period in seconds; 0 while no ticker is set. */
    var ticker: int
    var options: seq<DialOption>
    /** Each service's resolver, as the number of times it was asked to re-resolve. */
    var resolvers: map<string, nat>
    var localConns: map<string, seq<ClientConn>>
    var isStateDisconnected: bool
    var balancerName: string
    var logger: Logger

    /** A connected client: the root is `/<scheme>`, and an unregistered client holds no node. */
    ghost predicate Valid()
      reads this, conn
    {
      && conn != null && conn.Valid()
      && zkRoot == "/" + scheme
      && (!isRegistered ==> node == "")
    }

    /** The client literal of `NewZkClient`. */
    constructor (servers: seq<string>, scheme0: string)
      ensures zkServers == servers && zkRoot == "/" && scheme == scheme0 && timeout == DefaultTimeout
      ensures localConns == map[] && resolvers == map[] && logger == NilLog
      ensures username == "" && password == "" && options == [] && ticker == 0 && balancerName == ""
      ensures rpcRegisterName == "" && rpcRegisterAddr == "" && !isRegistered && node == ""
      ensures conn == null && !isStateDisconnected
    {
      zkServers := servers;
      zkRoot := "/";
      username := "";
      password := "";
      rpcRegisterName := "";
      rpcRegisterAddr := "";
      isRegistered := false;
      scheme := scheme0;
      timeout := DefaultTimeout;
      conn := null;
      node := "";
      ticker := 0;
      options := [];
      resolvers := map[];
      localConns := map[];
      isStateDisconnected := false;
      balancerName := "";
      logger := NilLog;
    }

    /**
     * The part of `NewZkClient` after connecting: restart the ticker at the default
     * period, authenticate, root the client at `/<scheme>` and ensure that node.
     */
    method Start(store: ZkStore.Store) returns (err: Errs.Error)
      requires store.Valid() && zkRoot == "/" && conn == null && !isRegistered && node == ""
      modifies this`ticker, this`zkRoot, this`conn, store`nodes, store`auths, store`closed
      ensures store.Valid() && conn == store && zkRoot == "/" + scheme
      ensures ticker == DefaultFreq
      ensures err == Errs.Nil ==> Valid() && zkRoot in store.nodes
      ensures err == old(StartError(store, username, password, "/" + scheme))
      ensures store.nodes == old(StartNodes(store, username, password, "/" + scheme))
      ensures err != Errs.Nil ==> store.closed
    {
      ticker := DefaultFreq;
      err := Authenticate(store, username, password);
      zkRoot := zkRoot + scheme;
      conn := store;
      if err != Errs.Nil {
        return;
      }
      err := EnsureRoot();
    }

    /** The fields the options assign. */
    function OptionSettings(): Settings
      reads this`username, this`password, this`options, this`ticker, this`timeout, this`logger, this`balancerName
    {
      Settings(username, password, options, ticker, timeout, logger, balancerName)
    }

    /** Running one option closure on the client. */
    method UseOption(o: ZkOption)
      modifies this`username, this`password, this`options, this`ticker, this`timeout, this`logger, this`balancerName
      ensures OptionSettings() == ApplyOption(old(OptionSettings()), o)
    {
      match o
      case WithRoundRobin => balancerName := RoundRobin;
      case WithUserNameAndPassword(u, p) => username := u; password := p;
      case WithOptions(opts) => options := opts;
      case WithFreq(freq) => ticker := freq;
      case WithTimeout(t) => timeout := t;
      case WithLogger(l) => logger := l;
    }

    /** `for _, option := range options { option(client) }`. */
    method UseOptions(opts: seq<ZkOption>)
      modifies this`username, this`password, this`options, this`ticker, this`timeout, this`logger, this`balancerName
      ensures OptionSettings() == ApplyAll(old(OptionSettings()), opts)
    {
      ghost var s0 := OptionSettings();
      var i := 0;
      while i < |opts|
        invariant 0 <= i <= |opts|
        invariant OptionSettings() == ApplyAll(s0, opts[..i])
      {
        UseOption(opts[i]);
        assert opts[..i + 1][..i] == opts[..i];
        i := i + 1;
      }
      assert opts[..|opts|] == opts;
    }

    /** `getPath`: the node of a service. */
    function GetPath(serviceName: string): string
      reads this`zkRoot
    {
      zkRoot + "/" + serviceName
    }

    /** `getAddr`: host and decimal port joined as `net.JoinHostPort` does. */
    function GetAddr(host: string, port: int): string
    {
      JoinHostPort(host, Strconv.Itoa(port))
    }

    function GetRootPath(): string
      reads this`zkRoot
    {
      zkRoot
    }

    function GetNode(): string
      reads this`node
    {
      node
    }

    /** `GetSelfConnTarget`: the address this client registered. */
    function GetSelfConnTarget(): string
      reads this`rpcRegisterAddr
    {
      rpcRegisterAddr
    }

    /** The child name of a temporary node: the address, `_` and the sequence number. */
    function TempChild(addr: string, n: nat): string
    {
      addr + "_" + Strconv.Itoa(n)
    }

    /** The path of a temporary node under a service. */
    function TempNode(serviceName: string, addr: string, n: nat): string
      reads this`zkRoot
    {
      GetPath(serviceName) + "/" + TempChild(addr, n)
    }

    /** A connected client keeps its services under `/<scheme>`, and a watch on a service path names that service. */
    lemma GetPathLayout(serviceName: string)
      requires Valid()
      requires '/' !in serviceName
      ensures GetPath(serviceName) == "/" + scheme + "/" + serviceName
      ensures GetRootPath() == "/" + scheme
      ensures var parts := Strs.Split(GetPath(serviceName), '/'); |parts| > 1 && parts[|parts| - 1] == serviceName
    {
      ServiceOfPath(zkRoot, serviceName);
    }

    /** `AddOption`: the new dial options go after the existing ones. */
    method AddOption(opts: seq<DialOption>)
      modifies this`options
      ensures options == old(options) + opts
    {
      options := options + opts;
    }

    /** `ensureAndCreate`: create the node with no data unless it is there already. */
    method EnsureAndCreate(path: string) returns (err: Errs.Error)
      requires Valid()
      modifies conn`nodes
      ensures Valid()
      ensures err == old(EnsureError(conn, path)) && conn.nodes == old(EnsuredNodes(conn, path))
    {
      var present := conn.Exists(path);
      if present.Failure? {
        return Errs.WrapMsg(present.error, "Exists failed", ["node", path]);
      }
      if !present.value {
        err := conn.Create(path, "");
        if err != Errs.Nil && err != ZkStore.ErrNodeExists {
          return Errs.WrapMsg(err, "Create failed", ["node", path]);
        }
      }
      return Errs.Nil;
    }

    /** `ensureRoot` as `NewZkClient` runs it: a failure closes the connection. */
    method EnsureRoot() returns (err: Errs.Error)
      requires Valid()
      modifies conn`nodes, conn`closed
      ensures Valid()
      ensures err == old(EnsureError(conn, zkRoot)) && conn.nodes == old(EnsuredNodes(conn, zkRoot))
      ensures err == Errs.Nil ==> zkRoot in conn.nodes && conn.closed == old(conn.closed)
      ensures err != Errs.Nil ==> conn.closed
    {
      EnsureProps(conn, zkRoot);
      err := EnsureAndCreate(zkRoot);
      if err != Errs.Nil {
        conn.Close();
      }
    }

    /** `flushResolver`. */
    method FlushResolver(serviceName: string)
      modifies this`resolvers
      ensures resolvers == ResolvedOnce(old(resolvers), serviceName)
    {
      if serviceName in resolvers {
        resolvers := resolvers[serviceName := resolvers[serviceName] + 1];
      }
    }

    /** `flushResolverAndDeleteLocal`: re-resolve the service and drop only its cached connections. */
    method FlushResolverAndDeleteLocal(serviceName: string)
      modifies this`resolvers, this`localConns
      ensures resolvers == ResolvedOnce(old(resolvers), serviceName)
      ensures localConns == old(localConns) - {serviceName}
    {
      FlushResolver(serviceName);
      localConns := localConns - {serviceName};
    }

    /** One tick of `refresh`: every resolver re-resolves once and the connection cache empties. */
    method RefreshTick()
      modifies this`resolvers, this`localConns
      ensures resolvers.Keys == old(resolvers).Keys
      ensures forall k :: k in resolvers ==> resolvers[k] == old(resolvers)[k] + 1
      ensures localConns == map[]
    {
      ghost var r0 := resolvers;
      var todo := resolvers.Keys;
      while todo != {}
        invariant todo <= r0.Keys && resolvers.Keys == r0.Keys
        invariant forall k :: k in resolvers ==> resolvers[k] == (if k in todo then r0[k] else r0[k] + 1)
        decreases todo
      {
        var k :| k in todo;
        FlushResolver(k);
        todo := todo - {k};
      }
      ghost var r1 := resolvers;
      var names := localConns.Keys;
      while names != {}
        invariant localConns.Keys == names && resolvers == r1
        decreases names
      {
        var k :| k in names;
        localConns := localConns - {k};
        names := names - {k};
      }
      assert localConns.Keys == {};
    }

    /** `CreateTempNode`: a sequential node `<service path>/<addr>_<n>` holding the address. */
    method CreateTempNode(serviceName: string, addr: string) returns (node': string, err: Errs.Error)
      requires Valid()
      modifies conn`nodes, conn`kids, conn`nextSeq
      ensures Valid()
      ensures old(conn.CanCreateSequential(GetPath(serviceName))) ==>
        && err == Errs.Nil && node' == TempNode(serviceName, addr, old(conn.nextSeq))
        && conn.nodes == old(conn.nodes)[node' := addr]
        && conn.kids == old(conn.kids)[GetPath(serviceName) :=
             old(conn.KidsOf(GetPath(serviceName))) + [TempChild(addr, old(conn.nextSeq))]]
        && conn.nextSeq == old(conn.nextSeq) + 1
      ensures !old(conn.CanCreateSequential(GetPath(serviceName))) ==>
        && node' == "" && unchanged(conn)
        && err == Errs.WrapMsg(old(conn.CreateSequentialError(GetPath(serviceName))),
             "CreateProtectedEphemeralSequential failed", ["path", GetPath(serviceName) + "/" + addr + "_"])
        && err != Errs.Nil
    {
      var e;
      node', e := conn.CreateProtectedEphemeralSequential(GetPath(serviceName), addr + "_", addr);
      if e != Errs.Nil {
        return "", Errs.WrapMsg(e, "CreateProtectedEphemeralSequential failed", ["path", GetPath(serviceName) + "/" + addr + "_"]);
      }
      err := Errs.Nil;
    }

    /** `Register`: ensure the service node, check the address dials, then add the temporary node. */
    method Register(serviceName: string, host: string, port: int, opts: seq<DialOption>, dial: Dialer)
      returns (err: Errs.Error)
      requires Valid()
      modifies this`rpcRegisterName, this`rpcRegisterAddr, this`node, this`isRegistered
      modifies conn`nodes, conn`kids, conn`nextSeq
      ensures Valid()
      ensures err == Errs.Nil <==>
        && old(EnsureError(conn, GetPath(serviceName))) == Errs.Nil
        && dial(GetAddr(host, port), opts) == Errs.Nil
        && ZkStore.CreateSeqReq(GetPath(serviceName)) !in conn.faults
      ensures old(EnsureError(conn, GetPath(serviceName))) != Errs.Nil ==>
        err == old(EnsureError(conn, GetPath(serviceName))) && unchanged(conn)
      ensures old(EnsureError(conn, GetPath(serviceName))) == Errs.Nil && dial(GetAddr(host, port), opts) != Errs.Nil ==>
        err == Errs.WrapMsg(dial(GetAddr(host, port), opts), "grpc dial error", ["addr", GetAddr(host, port)])
      ensures old(EnsureError(conn, GetPath(serviceName))) == Errs.Nil && dial(GetAddr(host, port), opts) == Errs.Nil && err != Errs.Nil ==>
        err == Errs.WrapMsg(conn.faults[ZkStore.CreateSeqReq(GetPath(serviceName))],
          "CreateProtectedEphemeralSequential failed", ["path", GetPath(serviceName) + "/" + GetAddr(host, port) + "_"])
      ensures old(EnsureError(conn, GetPath(serviceName))) == Errs.Nil && err != Errs.Nil ==>
        && conn.nodes == old(EnsuredNodes(conn, GetPath(serviceName)))
        && conn.kids == old(conn.kids) && conn.nextSeq == old(conn.nextSeq)
      ensures err != Errs.Nil ==>
        && rpcRegisterName == old(rpcRegisterName) && rpcRegisterAddr == old(rpcRegisterAddr)
        && node == old(node) && isRegistered == old(isRegistered)
      ensures err == Errs.Nil ==>
        && rpcRegisterName == serviceName && rpcRegisterAddr == GetAddr(host, port) && isRegistered
        && GetSelfConnTarget() == GetAddr(host, port)
        && node == TempNode(serviceName, GetAddr(host, port), old(conn.nextSeq))
        && conn.nodes == old(EnsuredNodes(conn, GetPath(serviceName)))[node := GetAddr(host, port)]
        && conn.kids == old(conn.kids)[GetPath(serviceName) :=
             old(conn.KidsOf(GetPath(serviceName))) + [TempChild(GetAddr(host, port), old(conn.nextSeq))]]
        && conn.nextSeq == old(conn.nextSeq) + 1
    {
      err := EnsureAndCreate(GetPath(serviceName));
      EnsureProps(old(conn), GetPath(serviceName));
      if err != Errs.Nil {
        return;
      }
      var addr := GetAddr(host, port);
      var dialErr := dial(addr, opts);
      if dialErr != Errs.Nil {
        return Errs.WrapMsg(dialErr, "grpc dial error", ["addr", addr]);
      }
      err := RegisterNode(serviceName, addr);
    }

    /** The end of `Register`: add the temporary node and record the registration. */
    method RegisterNode(serviceName: string, addr: string) returns (err: Errs.Error)
      requires Valid() && GetPath(serviceName) in conn.nodes
      modifies this`rpcRegisterName, this`rpcRegisterAddr, this`node, this`isRegistered
      modifies conn`nodes, conn`kids, conn`nextSeq
      ensures Valid()
      ensures err == Errs.Nil <==> ZkStore.CreateSeqReq(GetPath(serviceName)) !in conn.faults
      ensures err != Errs.Nil ==>
        && err == Errs.WrapMsg(conn.faults[ZkStore.CreateSeqReq(GetPath(serviceName))],
             "CreateProtectedEphemeralSequential failed", ["path", GetPath(serviceName) + "/" + addr + "_"])
        && unchanged(conn)
        && rpcRegisterName == old(rpcRegisterName) && rpcRegisterAddr == old(rpcRegisterAddr)
        && node == old(node) && isRegistered == old(isRegistered)
      ensures err == Errs.Nil ==>
        && rpcRegisterName == serviceName && rpcRegisterAddr == addr && isRegistered
        && node == TempNode(serviceName, addr, old(conn.nextSeq))
        && conn.nodes == old(conn.nodes)[node := addr]
        && conn.kids == old(conn.kids)[GetPath(serviceName) := old(conn.KidsOf(GetPath(serviceName))) + [TempChild(addr, old(conn.nextSeq))]]
        && conn.nextSeq == old(conn.nextSeq) + 1
    {
      var n;
      n, err := CreateTempNode(serviceName, addr);
      if err != Errs.Nil {
        return;
      }
      rpcRegisterName := serviceName;
      rpcRegisterAddr := addr;
      node := n;
      isRegistered := true;
    }

    /** `UnRegister`: delete the node, then forget the registration, the cache and the resolvers. */
    method UnRegister() returns (err: Errs.Error)
      requires Valid()
      modifies this`node, this`rpcRegisterName, this`rpcRegisterAddr, this`isRegistered, this`localConns, this`resolvers
      modifies conn`nodes, conn`kids
      ensures Valid()
      ensures err == Errs.WrapMsg(old(conn.DeleteError(node)), "delete node error", ["node", old(node)])
      ensures err != Errs.Nil ==> unchanged(this) && unchanged(conn)
      ensures err == Errs.Nil ==>
        && node == "" && rpcRegisterName == "" && rpcRegisterAddr == "" && !isRegistered
        && localConns == map[] && resolvers == map[]
        && conn.nodes == old(conn.nodes) - {old(node)}
        && conn.kids == (map p | p in old(conn.kids) :: conn.Without(p, old(conn.kids)[p], old(node)))
    {
      var e := conn.Delete(node);
      if e != Errs.Nil {
        return Errs.WrapMsg(e, "delete node error", ["node", node]);
      }
      node := "";
      rpcRegisterName := "";
      rpcRegisterAddr := "";
      isRegistered := false;
      localConns := map[];
      resolvers := map[];
      err := Errs.Nil;
    }

    /** `CreateRpcRootNodes`: ensure each service node in list order, stopping at the first failure. */
    method CreateRpcRootNodes(serviceNames: seq<string>) returns (err: Errs.Error)
      requires Valid()
      modifies conn`nodes
      ensures Valid()
      ensures forall p :: p in old(conn.nodes) ==> p in conn.nodes && conn.nodes[p] == old(conn.nodes)[p]
      ensures err == Errs.Nil ==> forall i :: 0 <= i < |serviceNames| ==> GetPath(serviceNames[i]) in conn.nodes
      ensures err == Errs.Nil ==> forall p :: p in conn.nodes ==>
        p in old(conn.nodes) || exists i :: 0 <= i < |serviceNames| && p == GetPath(serviceNames[i])
      ensures err != Errs.Nil ==> exists k :: (0 <= k < |serviceNames|
        && err == EnsureError(conn, GetPath(serviceNames[k]))
        && EnsureFailed(err, GetPath(serviceNames[k]))
        && (forall i :: 0 <= i < k ==> GetPath(serviceNames[i]) in conn.nodes)
        && (forall p :: p in conn.nodes ==> p in old(conn.nodes) || exists i :: 0 <= i < k && p == GetPath(serviceNames[i])))
    {
      ghost var s0 := conn.nodes;
      var i := 0;
      while i < |serviceNames|
        invariant 0 <= i <= |serviceNames|
        invariant Valid()
        invariant forall p :: p in s0 ==> p in conn.nodes && conn.nodes[p] == s0[p]
        invariant forall j :: 0 <= j < i ==> GetPath(serviceNames[j]) in conn.nodes
        invariant forall p :: p in conn.nodes ==> p in s0 || exists j :: 0 <= j < i && p == GetPath(serviceNames[j])
      {
        ghost var before := conn.nodes;
        EnsureProps(conn, GetPath(serviceNames[i]));
        err := EnsureAndCreate(GetPath(serviceNames[i]));
        if err != Errs.Nil && err != ZkStore.ErrNodeExists {
          assert EnsureFailed(err, GetPath(serviceNames[i]));
          return;
        }
        assert forall p :: p in conn.nodes ==> p in before || p == GetPath(serviceNames[i]);
        i := i + 1;
      }
      err := Errs.Nil;
    }

    /** The cached connections of a service; a missing entry is an empty list. */
    function Cached(serviceName: string): seq<ClientConn>
      reads this`localConns
    {
      if serviceName in localConns then localConns[serviceName] else []
    }

    /** The read loop of `GetConnsRemote`. */
    method FetchAddrs(path: string, children: seq<string>, serviceName: string) returns (conns: seq<Address>, err: Errs.Error)
      requires Valid()
      ensures match ReadAddrs(conn, path, children, serviceName)
        case Success(a) => err == Errs.Nil && conns == a
        case Failure(e) => err == e && conns == [] && err != Errs.Nil
    {
      conns := [];
      var i := 0;
      while i < |children|
        invariant 0 <= i <= |children|
        invariant ReadAddrs(conn, path, children[..i], serviceName) == Success(conns)
      {
        var fullPath := path + "/" + children[i];
        var data := conn.Get(fullPath);
        assert children[..i + 1][..i] == children[..i];
        if data.Failure? {
          ReadAddrsPrefixFailure(conn, path, children, i + 1, serviceName);
          return [], Errs.WrapMsg(data.error, "get children error", ["fullPath", fullPath]);
        }
        conns := conns + [Address(data.value, serviceName)];
        i := i + 1;
      }
      assert children[..|children|] == children;
      err := Errs.Nil;
    }

    /** `GetConnsRemote`: ensure the service node, watch its children, and read each child's address. */
    method GetConnsRemote(serviceName: string) returns (conns: seq<Address>, err: Errs.Error)
      requires Valid()
      modifies conn`nodes, conn`watches
      ensures Valid()
      ensures old(EnsureError(conn, GetPath(serviceName))) != Errs.Nil ==>
        err == old(EnsureError(conn, GetPath(serviceName))) && conns == [] && unchanged(conn)
      ensures old(EnsureError(conn, GetPath(serviceName))) == Errs.Nil ==>
        && conn.nodes == old(EnsuredNodes(conn, GetPath(serviceName)))
        && match RemoteAddrs(conn, GetPath(serviceName), serviceName)
           case Success(a) => err == Errs.Nil && conns == a && GetPath(serviceName) in conn.watches
           case Failure(e) => err == e && conns == [] && err != Errs.Nil
      ensures old(conn.watches) <= conn.watches <= old(conn.watches) + {GetPath(serviceName)}
    {
      var path := GetPath(serviceName);
      conns := [];
      err := EnsureAndCreate(path);
      EnsureProps(old(conn), path);
      if err != Errs.Nil {
        return;
      }
      RemoteAddrsFailure(conn, path, serviceName);
      var _, watchErr := conn.ChildrenW(path);
      if watchErr != Errs.Nil {
        return [], Errs.WrapMsg(watchErr, "children watch error", ["path", path]);
      }
      var children := conn.Children(path);
      if children.Failure? {
        return [], Errs.WrapMsg(children.error, "get children error", ["path", path]);
      }
      conns, err := FetchAddrs(path, children.value, serviceName);
    }

    /** The dial loop of `GetConns`. */
    method DialEach(addrs: seq<Address>, options': seq<DialOption>, dial: Dialer) returns (conns: seq<ClientConn>, err: Errs.Error)
      ensures match DialAll(addrs, options', dial)
        case Success(cs) => err == Errs.Nil && conns == cs
        case Failure(e) => err == e && conns == [] && err != Errs.Nil
    {
      conns := [];
      var i := 0;
      while i < |addrs|
        invariant 0 <= i <= |addrs|
        invariant DialAll(addrs[..i], options', dial) == Success(conns)
      {
        var dialErr := dial(addrs[i].addr, options');
        assert addrs[..i + 1][..i] == addrs[..i];
        if dialErr != Errs.Nil {
          DialAllPrefixFailure(addrs, i + 1, options', dial);
          return [], Errs.WrapMsg(dialErr, "DialContext failed", ["addr.Addr", addrs[i].addr]);
        }
        conns := conns + [ClientConn(addrs[i].addr, options')];
        i := i + 1;
      }
      assert addrs[..|addrs|] == addrs;
      err := Errs.Nil;
    }

    /**
     * `GetConns`: the cached connections when there are any; otherwise the service's
     * addresses are read and dialled with the client's options followed by `opts`, and
     * the connections are cached only when every one dials.
     */
    method GetConns(serviceName: string, opts: seq<DialOption>, dial: Dialer) returns (conns: seq<ClientConn>, err: Errs.Error)
      requires Valid()
      modifies this`localConns, conn`nodes, conn`watches
      ensures Valid()
      ensures old(Cached(serviceName)) != [] ==>
        conns == old(Cached(serviceName)) && err == Errs.Nil && localConns == old(localConns) && unchanged(conn)
      ensures old(Cached(serviceName)) == [] ==>
        match FetchConns(old(EnsureError(conn, GetPath(serviceName))), RemoteAddrs(conn, GetPath(serviceName), serviceName),
                         options + opts, dial, serviceName, zkServers, zkRoot)
        case Success(cs) => err == Errs.Nil && conns == cs && localConns == old(localConns)[serviceName := cs]
        case Failure(e) => err == e && err != Errs.Nil && conns == [] && localConns == old(localConns)
      ensures old(Cached(serviceName)) == [] ==> conn.nodes == old(EnsuredNodes(conn, GetPath(serviceName)))
      ensures old(conn.watches) <= conn.watches <= old(conn.watches) + {GetPath(serviceName)}
    {
      conns := Cached(serviceName);
      if |conns| > 0 {
        return conns, Errs.Nil;
      }
      var dialed;
      dialed, err := FetchRemote(serviceName, opts, dial);
      if err != Errs.Nil {
        return [], err;
      }
      conns := conns + dialed;
      assert conns == dialed;
      localConns := localConns[serviceName := conns];
    }

    /** The cache-miss path of `GetConns`: read the addresses, then dial each one. */
    method FetchRemote(serviceName: string, opts: seq<DialOption>, dial: Dialer) returns (conns: seq<ClientConn>, err: Errs.Error)
      requires Valid()
      modifies conn`nodes, conn`watches
      ensures Valid()
      ensures match FetchConns(old(EnsureError(conn, GetPath(serviceName))), RemoteAddrs(conn, GetPath(serviceName), serviceName),
                               options + opts, dial, serviceName, zkServers, zkRoot)
        case Success(cs) => err == Errs.Nil && conns == cs
        case Failure(e) => err == e && err != Errs.Nil && conns == []
      ensures conn.nodes == old(EnsuredNodes(conn, GetPath(serviceName)))
      ensures old(conn.watches) <= conn.watches <= old(conn.watches) + {GetPath(serviceName)}
    {
      EnsureProps(conn, GetPath(serviceName));
      var addrs;
      addrs, err := GetConnsRemote(serviceName);
      if err != Errs.Nil {
        return [], err;
      }
      if |addrs| == 0 {
        return [], NoAddrError(serviceName, zkServers, zkRoot);
      }
      conns, err := DialEach(addrs, options + opts, dial);
    }

    /** `GetConn`: dial `<scheme>:///<service>` with the balancer's service configuration. */
    function GetConn(serviceName: string, opts: seq<DialOption>, dial: Dialer): (r: Result<ClientConn, Errs.Error>)
      reads this`scheme, this`options, this`balancerName
    {
      var target := ConnTarget(scheme, serviceName);
      var all := options + [ServiceConfig(BalancerConfig(balancerName))] + opts;
      if dial(target, all) == Errs.Nil then Success(ClientConn(target, all)) else Failure(dial(target, all))
    }

    /**
     * `GetConn` dials the service's target, with the client's options, then the balancer
     * configuration, then the caller's options; it fails exactly when that dial does.
     */
    lemma GetConnTarget(serviceName: string, opts: seq<DialOption>, dial: Dialer)
      ensures var all := options + [ServiceConfig(BalancerConfig(balancerName))] + opts;
        var target := scheme + (":///" + serviceName);
        && (GetConn(serviceName, opts, dial).Success? <==> dial(target, all) == Errs.Nil)
        && (GetConn(serviceName, opts, dial).Success? ==> GetConn(serviceName, opts, dial).value == ClientConn(target, all))
        && (GetConn(serviceName, opts, dial).Failure? ==> GetConn(serviceName, opts, dial).error == dial(target, all))
        && all[|options|] == ServiceConfig("{\"LoadBalancingPolicy\": \"" + (balancerName + "\"}"))
    {
      ConnTargetLayout(scheme, serviceName);
      BalancerConfigLayout(balancerName);
    }

    /** The event handler of `watch`, one event at a time. */
    method HandleEvent(e: Event)
      requires Valid()
      modifies this`isStateDisconnected, this`node, this`localConns, this`resolvers
      modifies conn`nodes, conn`kids, conn`nextSeq
      ensures Valid()
      ensures e.kind != EventSession && e.kind != EventNodeChildrenChanged ==> unchanged(this) && unchanged(conn)
      ensures e.kind == EventSession ==> localConns == old(localConns) && resolvers == old(resolvers) && SessionStep(conn, e.state)
      ensures e.kind == EventNodeChildrenChanged ==>
        var parts := Strs.Split(e.path, '/');
        && isStateDisconnected == old(isStateDisconnected) && node == old(node) && unchanged(conn)
        && if |parts| > 1 then
             localConns == old(localConns) - {parts[|parts| - 1]} && resolvers == ResolvedOnce(old(resolvers), parts[|parts| - 1])
           else
             localConns == old(localConns) && resolvers == old(resolvers)
    {
      match e.kind {
        case EventSession =>
          HandleSession(e.state);
        case EventNodeChildrenChanged =>
          var parts := Strs.Split(e.path, '/');
          if |parts| > 1 {
            FlushResolverAndDeleteLocal(parts[|parts| - 1]);
          }
        case EventNodeDataChanged =>
        case EventNodeCreated =>
        case EventNodeDeleted =>
        case EventNotWatching =>
      }
    }

    /**
     * What a session event does: Disconnected sets the flag and Connected clears it;
     * HasSession re-creates the temporary node of a registered, connected client, replacing
     * `node` only when that succeeds; any other state changes nothing.
     */
    twostate predicate SessionStep(store: ZkStore.Store, state: SessionState)
      reads this, store
    {
      match state
      case StateDisconnected => isStateDisconnected && node == old(node) && unchanged(store)
      case StateConnected => !isStateDisconnected && node == old(node) && unchanged(store)
      case StateOther(_) => isStateDisconnected == old(isStateDisconnected) && node == old(node) && unchanged(store)
      case StateHasSession =>
        && isStateDisconnected == old(isStateDisconnected)
        && if old(isRegistered && !isStateDisconnected && store.CanCreateSequential(GetPath(rpcRegisterName))) then
             && node == TempNode(rpcRegisterName, rpcRegisterAddr, old(store.nextSeq))
             && store.nodes == old(store.nodes)[node := rpcRegisterAddr]
             && store.kids == old(store.kids)[GetPath(rpcRegisterName) :=
                  old(store.KidsOf(GetPath(rpcRegisterName))) + [TempChild(rpcRegisterAddr, old(store.nextSeq))]]
             && store.nextSeq == old(store.nextSeq) + 1
           else
             node == old(node) && unchanged(store)
    }

    /** The session branch of `watch`. */
    method HandleSession(state: SessionState)
      requires Valid()
      modifies this`isStateDisconnected, this`node, conn`nodes, conn`kids, conn`nextSeq
      ensures Valid()
      ensures SessionStep(conn, state)
    {
      match state {
        case StateHasSession =>
          if isRegistered && !isStateDisconnected {
            var n, err := CreateTempNode(rpcRegisterName, rpcRegisterAddr);
            if err == Errs.Nil {
              node := n;
            }
          }
        case StateDisconnected =>
          isStateDisconnected := true;
        case StateConnected =>
          isStateDisconnected := false;
        case StateOther(_) =>
      }
    }
  }

  /** The digest authentication of `NewZkClient`: only when both credentials are set; a failure closes the connection. */
  method Authenticate(store: ZkStore.Store, username: string, password: string) returns (err: Errs.Error)
    requires store.Valid()
    modifies store`auths, store`closed
    ensures store.Valid()
    ensures username != "" && password != "" && ZkStore.AuthReq in store.faults ==>
      && err == Errs.WrapMsg(store.faults[ZkStore.AuthReq], "AddAuth failed", ["username", username, "password", password])
      && err != Errs.Nil && store.closed && store.auths == old(store.auths)
    ensures username != "" && password != "" && ZkStore.AuthReq !in store.faults ==>
      err == Errs.Nil && store.auths == old(store.auths) + ["digest:" + (username + ":" + password)] && store.closed == old(store.closed)
    ensures !(username != "" && password != "") ==> err == Errs.Nil && unchanged(store)
  {
    err := Errs.Nil;
    if username != "" && password != "" {
      var authErr := store.AddAuth("digest", username + ":" + password);
      assert "digest" + ":" + (username + ":" + password) == "digest:" + (username + ":" + password);
      if authErr != Errs.Nil {
        store.Close();
        err := Errs.WrapMsg(authErr, "AddAuth failed", ["username", username, "password", password]);
      }
    }
  }

  /** The client literal of `NewZkClient` with the options applied in order. */
  method Configure(servers: seq<string>, scheme: string, opts: seq<ZkOption>) returns (c: ZkClient)
    ensures fresh(c) && c.conn == null
    ensures c.zkServers == servers && c.scheme == scheme && c.zkRoot == "/"
    ensures c.OptionSettings() == ApplyAll(InitialSettings, opts)
    ensures c.localConns == map[] && c.resolvers == map[]
    ensures !c.isRegistered && c.node == "" && c.rpcRegisterName == "" && c.rpcRegisterAddr == ""
    ensures !c.isStateDisconnected
  {
    c := new ZkClient(servers, scheme);
    assert c.OptionSettings() == InitialSettings;
    c.UseOptions(opts);
  }

  /**
   * `NewZkClient`: apply the options, connect (the outcome of `zk.Connect` is `connectErr`),
   * then start the client on the connection.
   */
  method NewZkClient(servers: seq<string>, scheme: string, opts: seq<ZkOption>, store: ZkStore.Store, connectErr: Errs.Error)
    returns (client: ZkClient?, err: Errs.Error)
    requires store.Valid()
    modifies store`nodes, store`auths, store`closed
    ensures store.Valid()
    ensures client != null <==> err == Errs.Nil
    ensures connectErr != Errs.Nil ==>
      err == Errs.WrapMsg(connectErr, "connect failed", ["ZkServers", ListText(servers)]) && unchanged(store)
    ensures connectErr == Errs.Nil ==>
      var s := ApplyAll(InitialSettings, opts);
      && err == old(StartError(store, s.username, s.password, "/" + scheme))
      && store.nodes == old(StartNodes(store, s.username, s.password, "/" + scheme))
      && (err != Errs.Nil ==> store.closed)
    ensures client != null ==>
      && fresh(client) && client.Valid() && client.conn == store
      && client.zkServers == servers && client.scheme == scheme && client.zkRoot == "/" + scheme
      && client.OptionSettings() == ApplyAll(InitialSettings, opts).(ticker := DefaultFreq)
      && client.localConns == map[] && client.resolvers == map[]
      && !client.isRegistered && client.node == "" && client.rpcRegisterName == "" && client.rpcRegisterAddr == ""
      && !client.isStateDisconnected
      && "/" + scheme in store.nodes
  {
    var c := Configure(servers, scheme, opts);
    ghost var s := ApplyAll(InitialSettings, opts);
    assert c.username == s.username && c.password == s.password;
    if connectErr != Errs.Nil {
      return null, Errs.WrapMsg(connectErr, "connect failed", ["ZkServers", ListText(servers)]);
    }
    err := c.Start(store);
    if err != Errs.Nil {
      return null, err;
    }
    assert c.OptionSettings() == s.(ticker := DefaultFreq);
    client := c;
  }

  /** The error `NewZkClient` returns once connected: authentication's, then the root node's. */
  function StartError(store: ZkStore.Store, username: string, password: string, root: string): Errs.Error
    reads store`nodes, store`faults, store`races
  {
    if username != "" && password != "" && ZkStore.AuthReq in store.faults then
      Errs.WrapMsg(store.faults[ZkStore.AuthReq], "AddAuth failed", ["username", username, "password", password])
    else EnsureError(store, root)
  }

  /** The nodes after `NewZkClient` once connected: the root is ensured unless authentication failed. */
  function StartNodes(store: ZkStore.Store, username: string, password: string, root: string): map<string, string>
    reads store`nodes, store`faults, store`races
  {
    if username != "" && password != "" && ZkStore.AuthReq in store.faults then store.nodes
    else EnsuredNodes(store, root)
  }

  /**
   * A connected client is running exactly when authentication (if asked for) and the root
   * node succeed; then the root exists. No other node is added, and no node's data changes.
   */
  lemma StartProps(store: ZkStore.Store, username: string, password: string, root: string)
    requires store.Valid()
    ensures StartError(store, username, password, root) == Errs.Nil <==>
      && !(username != "" && password != "" && ZkStore.AuthReq in store.faults)
      && EnsureError(store, root) == Errs.Nil
    ensures StartError(store, username, password, root) == Errs.Nil ==> root in StartNodes(store, username, password, root)
    ensures StartNodes(store, username, password, root).Keys <= store.nodes.Keys + {root}
    ensures forall p :: p in store.nodes ==>
      p in StartNodes(store, username, password, root) && StartNodes(store, username, password, root)[p] == store.nodes[p]
  {
    EnsureProps(store, root);
  }

  /** A call of `Register` or `UnRegister`. */
  datatype RegistrationStep = RegisterStep(serviceName: string, host: string, port: int) | UnRegisterStep

  /** Any sequence of registrations and removals keeps "unregistered means no node". */
  method RegistrationRun(client: ZkClient, steps: seq<RegistrationStep>, dial: Dialer)
    requires client.Valid()
    modifies client`rpcRegisterName, client`rpcRegisterAddr, client`node, client`isRegistered
    modifies client`localConns, client`resolvers
    modifies client.conn`nodes, client.conn`kids, client.conn`nextSeq
    ensures client.Valid()
    ensures !client.isRegistered ==> client.node == ""
  {
    var i := 0;
    while i < |steps|
      invariant 0 <= i <= |steps|
      invariant client.Valid()
    {
      match steps[i] {
        case RegisterStep(name, host, port) =>
          var _ := client.Register(name, host, port, [], dial);
        case UnRegisterStep =>
          var _ := client.UnRegister();
      }
      i := i + 1;
    }
  }
}
