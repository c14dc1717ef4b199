/**
 * The ZooKeeper ensemble as the discovery client sees it through its connection: a tree
 * of nodes (path to data, plus the child names the server lists under each path), the
 * requests that fail, the watches and credentials the connection holds, and the counter
 * that numbers sequential nodes. Queries are functions of that state; requests that
 * change it are methods.
 */
module ZkStore {
  import opened Wrappers
  import Strconv
  import Errs

  // The errors of the ZooKeeper client library that the discovery client compares against.
  const ErrNodeExists: Errs.Error := Errs.Foreign("zk: node already exists")
  const ErrNoNode: Errs.Error := Errs.Foreign("zk: node does not exist")
  const ErrNotEmpty: Errs.Error := Errs.Foreign("zk: node has children")

  /** A request to the server; the store's `faults` say which of them fail, and with what. */
  datatype Request =
    | ExistsReq(path: string)
    | CreateReq(path: string)
    | ChildrenWReq(path: string)
    | ChildrenReq(path: string)
    | GetReq(path: string)
    | CreateSeqReq(parent: string)
    | DeleteReq(path: string)
    | AuthReq

  class Store {
    /** The nodes that exist, with their data. */
    var nodes: map<string, string>
    /** The child names the server lists under a path, in its order. */
    var kids: map<string, seq<string>>
    /** Requests that fail, and the error each returns. */
    var faults: map<Request, Errs.Error>
    /** Paths another client creates between an existence check and a create. */
    var races: set<string>
    /** The sequence number the next sequential node gets. */
    var nextSeq: nat
    /** Paths with a child watch set on this connection. */
    var watches: set<string>
    /** Credentials added to the connection, as `scheme:auth`. */
    var auths: seq<string>
    var closed: bool

    /**
     * Every listed child exists, every fault carries an error, and a failing `Create`
     * reports something other than ErrNodeExists (which the server keeps for a node that is there).
     */
    ghost predicate Valid()
      reads this`kids, this`nodes, this`faults
    {
      && (forall p, c :: p in kids && c in kids[p] ==> p + "/" + c in nodes)
      && (forall r :: r in faults ==> faults[r] != Errs.Nil)
      && (forall r :: r in faults && r.CreateReq? ==> faults[r] != ErrNodeExists)
    }

    constructor (nodes0: map<string, string>, faults0: map<Request, Errs.Error>, races0: set<string>)
      requires forall r :: r in faults0 ==> faults0[r] != Errs.Nil
      requires forall r :: r in faults0 && r.CreateReq? ==> faults0[r] != ErrNodeExists
      ensures nodes == nodes0 && kids == map[] && faults == faults0 && races == races0
      ensures nextSeq == 0 && watches == {} && auths == [] && !closed
      ensures Valid()
    {
      nodes := nodes0;
      kids := map[];
      faults := faults0;
      races := races0;
      nextSeq := 0;
      watches := {};
      auths := [];
      closed := false;
    }

    /** `Exists(path)`. */
    function Exists(path: string): (r: Result<bool, Errs.Error>)
      reads this`nodes, this`faults
      ensures ExistsReq(path) in faults ==> r == Failure(faults[ExistsReq(path)])
      ensures ExistsReq(path) !in faults ==> r == Success(path in nodes)
    {
      if ExistsReq(path) in faults then Failure(faults[ExistsReq(path)]) else Success(path in nodes)
    }

    /** The children the server lists under a path that exists. */
    function KidsOf(path: string): seq<string>
      reads this`kids
    {
      if path in kids then kids[path] else []
    }

    /** `Children(path)`: the listed children of an existing node. */
    function Children(path: string): (r: Result<seq<string>, Errs.Error>)
      reads this`nodes, this`kids, this`faults
      ensures r.Success? <==> ChildrenReq(path) !in faults && path in nodes
      ensures r.Success? ==> r.value == KidsOf(path)
    {
      if ChildrenReq(path) in faults then Failure(faults[ChildrenReq(path)])
      else if path !in nodes then Failure(ErrNoNode)
      else Success(KidsOf(path))
    }

    /** `Get(path)`: the data of an existing node. */
    function Get(path: string): (r: Result<string, Errs.Error>)
      reads this`nodes, this`faults
      ensures r.Success? <==> GetReq(path) !in faults && path in nodes
      ensures r.Success? ==> r.value == nodes[path]
    {
      if GetReq(path) in faults then Failure(faults[GetReq(path)])
      else if path !in nodes then Failure(ErrNoNode)
      else Success(nodes[path])
    }

    /** What `Create(path, data)` returns: a fault, ErrNodeExists when the node is (or is raced) there, or nil. */
    function CreateError(path: string): Errs.Error
      reads this`nodes, this`faults, this`races
    {
      if CreateReq(path) in faults then faults[CreateReq(path)]
      else if path in nodes || path in races then ErrNodeExists
      else Errs.Nil
    }

    /** The nodes after `Create(path, data)`: a raced node is created by the other client, with no data. */
    function NodesAfterCreate(path: string, data: string): map<string, string>
      reads this`nodes, this`faults, this`races
    {
      if CreateReq(path) in faults || path in nodes then nodes
      else if path in races then nodes[path := ""]
      else nodes[path := data]
    }

    /** `Create(path, data, 0, acl)`: a persistent node. */
    method Create(path: string, data: string) returns (err: Errs.Error)
      requires Valid()
      modifies this`nodes
      ensures Valid()
      ensures err == old(CreateError(path)) && nodes == old(NodesAfterCreate(path, data))
    {
      err := CreateError(path);
      nodes := NodesAfterCreate(path, data);
    }

    /** `ChildrenW(path)`: as `Children`, and on success a child watch is left on the path. */
    method ChildrenW(path: string) returns (children: seq<string>, err: Errs.Error)
      modifies this`watches
      ensures ChildrenWReq(path) in faults ==> err == faults[ChildrenWReq(path)] && watches == old(watches)
      ensures ChildrenWReq(path) !in faults && path !in nodes ==> err == ErrNoNode && watches == old(watches)
      ensures ChildrenWReq(path) !in faults && path in nodes ==>
        err == Errs.Nil && children == KidsOf(path) && watches == old(watches) + {path}
    {
      children := [];
      if ChildrenWReq(path) in faults {
        err := faults[ChildrenWReq(path)];
      } else if path !in nodes {
        err := ErrNoNode;
      } else {
        children := KidsOf(path);
        watches := watches + {path};
        err := Errs.Nil;
      }
    }

    /** Whether a sequential node can be made under `parent`. */
    predicate CanCreateSequential(parent: string)
      reads this`nodes, this`faults
    {
      CreateSeqReq(parent) !in faults && parent in nodes
    }

    /** The error `CreateProtectedEphemeralSequential` returns under `parent`. */
    function CreateSequentialError(parent: string): (r: Errs.Error)
      reads this`nodes, this`faults, this`kids
      ensures CanCreateSequential(parent) ==> r == Errs.Nil
      ensures Valid() && !CanCreateSequential(parent) ==> r != Errs.Nil
    {
      if CreateSeqReq(parent) in faults then faults[CreateSeqReq(parent)]
      else if parent !in nodes then ErrNoNode
      else Errs.Nil
    }

    /** The child name the next sequential node under any parent gets. */
    function NextChild(name: string): string
      reads this`nextSeq
    {
      name + Strconv.Itoa(nextSeq)
    }

    /**
     * `CreateProtectedEphemeralSequential(parent + "/" + name, data, acl)`: a node named
     * `name` followed by the sequence number, listed as the last child of `parent`.
     */
    method CreateProtectedEphemeralSequential(parent: string, name: string, data: string)
      returns (node: string, err: Errs.Error)
      requires Valid()
      modifies this`nodes, this`kids, this`nextSeq
      ensures Valid()
      ensures err == old(CreateSequentialError(parent))
      ensures !old(CanCreateSequential(parent)) ==> node == "" && unchanged(this)
      ensures old(CanCreateSequential(parent)) ==>
        var child := old(NextChild(name));
        && err == Errs.Nil && node == parent + "/" + child
        && nodes == old(nodes)[node := data]
        && kids == old(kids)[parent := old(KidsOf(parent)) + [child]]
        && nextSeq == old(nextSeq) + 1
    {
      node := "";
      if CreateSeqReq(parent) in faults {
        err := faults[CreateSeqReq(parent)];
        return;
      }
      if parent !in nodes {
        err := ErrNoNode;
        return;
      }
      var child := NextChild(name);
      node := parent + "/" + child;
      nodes := nodes[node := data];
      kids := kids[parent := KidsOf(parent) + [child]];
      nextSeq := nextSeq + 1;
      err := Errs.Nil;
    }

    /** The listed children of `p` other than the node at `path`. */
    function Without(p: string, children: seq<string>, path: string): (r: seq<string>)
      ensures forall c :: c in r <==> c in children && p + "/" + c != path
    {
      if children == [] then []
      else
        var rest := Without(p, children[..|children| - 1], path);
        var c := children[|children| - 1];
        if p + "/" + c == path then rest else rest + [c]
    }

    /** The error `Delete(path, -1)` returns. */
    function DeleteError(path: string): Errs.Error
      reads this`nodes, this`faults, this`kids
    {
      if DeleteReq(path) in faults then faults[DeleteReq(path)]
      else if path !in nodes then ErrNoNode
      else if KidsOf(path) != [] then ErrNotEmpty
      else Errs.Nil
    }

    /** `Delete(path, -1)`: any version; the node leaves the tree and every child list. */
    method Delete(path: string) returns (err: Errs.Error)
      requires Valid()
      modifies this`nodes, this`kids
      ensures Valid()
      ensures err == old(DeleteError(path))
      ensures err != Errs.Nil ==> unchanged(this)
      ensures err == Errs.Nil ==>
        && nodes == old(nodes) - {path}
        && kids == (map p | p in old(kids) :: Without(p, old(kids)[p], path))
    {
      err := DeleteError(path);
      if err == Errs.Nil {
        nodes := nodes - {path};
        kids := map p | p in kids :: Without(p, kids[p], path);
      }
    }

    /** `AddAuth(scheme, auth)`: the credentials are kept on the connection. */
    method AddAuth(scheme: string, auth: string) returns (err: Errs.Error)
      modifies this`auths
      ensures AuthReq in faults ==> err == faults[AuthReq] && auths == old(auths)
      ensures AuthReq !in faults ==> err == Errs.Nil && auths == old(auths) + [scheme + ":" + auth]
    {
      if AuthReq in faults {
        err := faults[AuthReq];
      } else {
        auths := auths + [scheme + ":" + auth];
        err := Errs.Nil;
      }
    }

    /** `Close()`. */
    method Close()
      modifies this`closed
      ensures closed
    {
      closed := true;
    }
  }
}
