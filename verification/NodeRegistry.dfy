/** The registry of cluster nodes: a map keyed by a generated id, changed by add, update, delete
    and cleanup, and the node lists derived from it. */
module NodeRegistry {

  datatype Node = Node(
    uuid: string,
    id: string,
    name: string,
    nodeType: string,
    isStorageDriverInstalled: bool,
    pools: seq<string>)

  type Nodes = map<string, Node>

  const TypeMaster := "Master"

  // ----- the operations as steps -----

  /** `Add` carries the id that the generator hands out. */
  datatype Op = Add(node: Node, generated: string) | Update(node: Node) | Delete(node: Node) | Cleanup

  /** Whether the operation returns `nil`. */
  predicate Accepted(reg: Nodes, op: Op) {
    match op
    case Add(n, _) => n.uuid == ""
    case Update(n) => n.uuid in reg
    case Delete(n) => n.uuid != ""
    case Cleanup => true
  }

  function Step(reg: Nodes, op: Op): Nodes {
    if !Accepted(reg, op) then reg
    else
      match op
      case Add(n, generated) => reg[generated := n.(uuid := generated)]
      case Update(n) => reg[n.uuid := n]
      case Delete(n) => reg - {n.uuid}
      case Cleanup => map[]
  }

  function Run(ops: seq<Op>): Nodes {
    if ops == [] then map[] else Step(Run(ops[..|ops| - 1]), ops[|ops| - 1])
  }

  // ----- what every run keeps -----

  /** Each node is stored under its own id. */
  ghost predicate Keyed(reg: Nodes) {
    forall k | k in reg :: reg[k].uuid == k
  }

  lemma {:induction false} RunKeyed(ops: seq<Op>)
    ensures Keyed(Run(ops))
  {
    if ops != [] {
      RunKeyed(ops[..|ops| - 1]);
    }
  }

  ghost predicate IdsNonEmpty(ops: seq<Op>) {
    forall i | 0 <= i < |ops| && ops[i].Add? :: ops[i].generated != ""
  }

  /** While the generator hands out non-empty ids, no run stores a node without an id, so an update
      of a node without one is always refused. */
  lemma {:induction false} RunNeverEmptyKey(ops: seq<Op>, n: Node)
    requires IdsNonEmpty(ops)
    ensures "" !in Run(ops)
    ensures n.uuid == "" ==> !Accepted(Run(ops), Update(n))
  {
    if ops != [] {
      RunNeverEmptyKey(ops[..|ops| - 1], n);
    }
  }

  /** Whether an operation can change the entry of an id. */
  predicate Concerns(op: Op, k: string) {
    match op
    case Add(n, generated) => generated == k
    case Update(n) => n.uuid == k
    case Delete(n) => n.uuid == k
    case Cleanup => true
  }

  function OpsFor(ops: seq<Op>, k: string): seq<Op> {
    if ops == [] then []
    else
      var init := OpsFor(ops[..|ops| - 1], k);
      if Concerns(ops[|ops| - 1], k) then init + [ops[|ops| - 1]] else init
  }

  ghost predicate SameAt(a: Nodes, b: Nodes, k: string) {
    (k in a <==> k in b) && (k in a ==> a[k] == b[k])
  }

  /** Entries do not interfere: what a run leaves under an id is what is left by the operations that
      concern that id, run alone. */
  lemma {:induction false} RunSeparates(ops: seq<Op>, k: string)
    ensures SameAt(Run(ops), Run(OpsFor(ops, k)), k)
  {
    if ops != [] {
      var init, op := ops[..|ops| - 1], ops[|ops| - 1];
      RunSeparates(init, k);
      var own := OpsFor(init, k);
      if Concerns(op, k) {
        assert (own + [op])[..|own|] == own;
        StepAlike(Run(init), Run(own), op, k);
      } else {
        StepElsewhere(Run(init), op, k);
      }
    }
  }

  lemma StepAlike(a: Nodes, b: Nodes, op: Op, k: string)
    requires SameAt(a, b, k) && Concerns(op, k)
    ensures SameAt(Step(a, op), Step(b, op), k)
  {
  }

  lemma StepElsewhere(a: Nodes, op: Op, k: string)
    requires !Concerns(op, k)
    ensures SameAt(Step(a, op), a, k)
  {
  }

  /** Deleting a node just added restores the registry exactly when its id was new and non-empty, or
      when the failed generator's empty id already held that very node. */
  lemma AddThenDelete(reg: Nodes, n: Node, generated: string)
    requires n.uuid == ""
    ensures var added := n.(uuid := generated);
            Step(Step(reg, Add(n, generated)), Delete(added)) == reg <==>
            (generated != "" && generated !in reg) || (generated == "" && "" in reg && reg[""] == n)
  {
    var added := n.(uuid := generated);
    var reg' := Step(reg, Add(n, generated));
    if generated != "" && generated !in reg {
      assert reg' - {generated} == reg;
    } else if generated == "" {
      assert reg'[""] == n;
      assert "" in reg && reg[""] == n ==> reg' == reg;
    } else {
      assert generated !in Step(reg', Delete(added));
    }
  }

  // ----- derived views -----

  function Select(reg: Nodes, p: Node -> bool): set<Node> {
    set k | k in reg && p(reg[k]) :: reg[k]
  }

  predicate HasDriver(n: Node) {
    n.isStorageDriverInstalled
  }

  predicate IsStorageNode(n: Node) {
    |n.pools| > 0
  }

  predicate IsMaster(n: Node) {
    n.nodeType == TypeMaster
  }

  predicate Any(n: Node) {
    true
  }

  predicate WithStorage(n: Node) {
    HasDriver(n) && IsStorageNode(n)
  }

  predicate WithoutStorage(n: Node) {
    HasDriver(n) && !IsStorageNode(n)
  }

  predicate WithoutDriver(n: Node) {
    !HasDriver(n)
  }

  predicate Disabled(n: Node) {
    !HasDriver(n) && !IsMaster(n)
  }

  predicate BareMaster(n: Node) {
    !HasDriver(n) && IsMaster(n)
  }

  /** `list` holds the nodes with property `p`, each exactly once, in some order. */
  ghost predicate Lists(list: seq<Node>, reg: Nodes, p: Node -> bool) {
    multiset(list) == multiset(Select(reg, p))
  }

  class Registry {
    var nodes: Nodes

    ghost predicate Valid()
      reads this
    {
      Keyed(nodes)
    }

    constructor ()
      ensures Valid() && nodes == Run([])
    {
      nodes := map[];
    }

    method AddNode(n: Node, generated: string) returns (ok: bool)
      requires Valid()
      modifies this
      ensures Valid()
      ensures ok == Accepted(old(nodes), Add(n, generated))
      ensures nodes == Step(old(nodes), Add(n, generated))
      ensures ok <==> n.uuid == ""
      ensures nodes == if ok then old(nodes)[generated := n.(uuid := generated)] else old(nodes)
    {
      if n.uuid != "" {
        return false;
      }
      nodes := nodes[generated := n.(uuid := generated)];
      ok := true;
    }

    method UpdateNode(n: Node) returns (ok: bool)
      requires Valid()
      modifies this
      ensures Valid()
      ensures ok == Accepted(old(nodes), Update(n))
      ensures nodes == Step(old(nodes), Update(n))
      ensures ok <==> n.uuid in old(nodes)
      ensures nodes == if ok then old(nodes)[n.uuid := n] else old(nodes)
    {
      if n.uuid !in nodes {
        return false;
      }
      nodes := nodes[n.uuid := n];
      ok := true;
    }

    method DeleteNode(n: Node) returns (ok: bool)
      requires Valid()
      modifies this
      ensures Valid()
      ensures ok == Accepted(old(nodes), Delete(n))
      ensures nodes == Step(old(nodes), Delete(n))
      ensures ok <==> n.uuid != ""
      ensures nodes == if ok then old(nodes) - {n.uuid} else old(nodes)
    {
      if n.uuid == "" {
        return false;
      }
      nodes := nodes - {n.uuid};
      ok := true;
    }

    method CleanupRegistry()
      modifies this
      ensures Valid()
      ensures nodes == Step(old(nodes), Cleanup) == map[]
    {
      nodes := map[];
    }

    /** The loop that the views share: keeps the nodes with property `p`. */
    method Collect(p: Node -> bool) returns (list: seq<Node>)
      requires Valid()
      ensures Lists(list, nodes, p)
    {
      list := [];
      var left := nodes.Keys;
      while left != {}
        invariant left <= nodes.Keys
        invariant Lists(list, nodes - left, p)
        decreases left
      {
        var k :| k in left;
        ListsAdd(list, nodes, left, k, p);
        if p(nodes[k]) {
          list := list + [nodes[k]];
        }
        left := left - {k};
      }
      assert nodes - left == nodes;
    }

    method GetNodes() returns (list: seq<Node>)
      requires Valid()
      ensures Lists(list, nodes, Any)
      ensures forall n :: multiset(list)[n] ==
                if n.uuid in nodes && nodes[n.uuid] == n then 1 else 0
    {
      list := Collect(Any);
      ListsCount(list, nodes, Any);
    }

    method GetMasterNodes() returns (list: seq<Node>)
      requires Valid()
      ensures Lists(list, nodes, IsMaster)
      ensures forall n :: multiset(list)[n] ==
                if n.uuid in nodes && nodes[n.uuid] == n && n.nodeType == "Master" then 1 else 0
    {
      list := Collect(IsMaster);
      ListsCount(list, nodes, IsMaster);
    }

    method GetStorageDriverNodes() returns (list: seq<Node>)
      requires Valid()
      ensures Lists(list, nodes, HasDriver)
      ensures forall n :: multiset(list)[n] ==
                if n.uuid in nodes && nodes[n.uuid] == n && n.isStorageDriverInstalled then 1 else 0
    {
      list := Collect(HasDriver);
      ListsCount(list, nodes, HasDriver);
    }

    method GetStorageNodes() returns (list: seq<Node>)
      requires Valid()
      ensures Lists(list, nodes, WithStorage)
      ensures forall n :: multiset(list)[n] ==
                if n.uuid in nodes && nodes[n.uuid] == n && n.isStorageDriverInstalled && n.pools != [] then 1 else 0
    {
      var drivers := GetStorageDriverNodes();
      list := FilterList(drivers, IsStorageNode);
      FilterSelect(nodes, drivers, HasDriver, list, IsStorageNode, WithStorage);
      ListsCount(list, nodes, WithStorage);
    }

    method GetStorageLessNodes() returns (list: seq<Node>)
      requires Valid()
      ensures Lists(list, nodes, WithoutStorage)
      ensures forall n :: multiset(list)[n] ==
                if n.uuid in nodes && nodes[n.uuid] == n && n.isStorageDriverInstalled && n.pools == [] then 1 else 0
    {
      var drivers := GetStorageDriverNodes();
      list := FilterList(drivers, n => !IsStorageNode(n));
      FilterSelect(nodes, drivers, HasDriver, list, n => !IsStorageNode(n), WithoutStorage);
      ListsCount(list, nodes, WithoutStorage);
    }

    /** Looks for the node's id among the master nodes. */
    method IsMasterNode(n: Node) returns (found: bool)
      requires Valid()
      ensures found <==> n.uuid in nodes && nodes[n.uuid].nodeType == "Master"
    {
      var masters := GetMasterNodes();
      MembersAre(masters, nodes, IsMaster);
      assert n.uuid in nodes ==> (nodes[n.uuid] in masters <==> IsMaster(nodes[n.uuid]));
      var i := 0;
      found := false;
      while i < |masters|
        invariant 0 <= i <= |masters|
        invariant forall j | 0 <= j < i :: masters[j].uuid != n.uuid
      {
        if masters[i].uuid == n.uuid {
          return true;
        }
        i := i + 1;
      }
    }

    /** Nodes without the driver, the control plane left out. */
    method GetPXDisabledNodes() returns (list: seq<Node>)
      requires Valid()
      ensures Lists(list, nodes, Disabled)
      ensures forall n :: multiset(list)[n] ==
                if n.uuid in nodes && nodes[n.uuid] == n && !n.isStorageDriverInstalled && n.nodeType != "Master"
                then 1 else 0
    {
      list := [];
      var left := nodes.Keys;
      while left != {}
        invariant left <= nodes.Keys
        invariant Lists(list, nodes - left, Disabled)
        decreases left
      {
        var k :| k in left;
        ListsAdd(list, nodes, left, k, Disabled);
        var n := nodes[k];
        if !n.isStorageDriverInstalled {
          var master := IsMasterNode(n);
          if !master {
            list := list + [n];
          }
        }
        left := left - {k};
      }
      assert nodes - left == nodes;
      ListsCount(list, nodes, Disabled);
    }
  }

  /** A list of the nodes with a property holds each of them once, and nothing else. */
  lemma ListsCount(list: seq<Node>, reg: Nodes, p: Node -> bool)
    requires Keyed(reg) && Lists(list, reg, p)
    ensures forall n :: multiset(list)[n] == if n.uuid in reg && reg[n.uuid] == n && p(n) then 1 else 0
  {
    forall n ensures n in Select(reg, p) <==> n.uuid in reg && reg[n.uuid] == n && p(n) {
    }
  }

  method FilterList(list: seq<Node>, p: Node -> bool) returns (kept: seq<Node>)
    ensures forall n :: multiset(kept)[n] == if p(n) then multiset(list)[n] else 0
  {
    kept := [];
    var i := 0;
    while i < |list|
      invariant 0 <= i <= |list|
      invariant forall n :: multiset(kept)[n] == if p(n) then multiset(list[..i])[n] else 0
    {
      assert list[..i + 1] == list[..i] + [list[i]];
      if p(list[i]) {
        kept := kept + [list[i]];
      }
      i := i + 1;
    }
    assert list[..i] == list;
  }

  lemma SelectAdd(reg: Nodes, k: string, n: Node, p: Node -> bool)
    requires Keyed(reg) && k !in reg && n.uuid == k
    ensures n !in Select(reg, p)
    ensures Select(reg[k := n], p) == Select(reg, p) + (if p(n) then {n} else {})
  {
    var reg' := reg[k := n];
    forall m | m in Select(reg, p) ensures m in Select(reg', p) && m != n {
      var j :| j in reg && p(reg[j]) && reg[j] == m;
      assert reg'[j] == m;
    }
    if p(n) {
      assert reg'[k] == n;
    }
    forall m | m in Select(reg', p) ensures m in Select(reg, p) || (p(n) && m == n) {
      var j :| j in reg' && p(reg'[j]) && reg'[j] == m;
      assert j != k ==> reg[j] == m;
    }
  }

  lemma ListsAdd(list: seq<Node>, reg: Nodes, left: set<string>, k: string, p: Node -> bool)
    requires Keyed(reg) && k in left && left <= reg.Keys
    requires Lists(list, reg - left, p)
    ensures Lists(if p(reg[k]) then list + [reg[k]] else list, reg - (left - {k}), p)
  {
    SelectAdd(reg - left, k, reg[k], p);
    assert reg - (left - {k}) == (reg - left)[k := reg[k]];
  }

  lemma MembersAre(list: seq<Node>, reg: Nodes, p: Node -> bool)
    requires Keyed(reg) && Lists(list, reg, p)
    ensures forall n :: n in list <==> n.uuid in reg && reg[n.uuid] == n && p(n)
  {
    forall n ensures n in list <==> n.uuid in reg && reg[n.uuid] == n && p(n) {
      assert n in list <==> n in multiset(list);
      assert n in multiset(Select(reg, p)) <==> n in Select(reg, p);
    }
  }

  lemma FilterSelect(reg: Nodes, list: seq<Node>, p: Node -> bool, kept: seq<Node>, q: Node -> bool, both: Node -> bool)
    requires Lists(list, reg, p)
    requires forall n :: multiset(kept)[n] == if q(n) then multiset(list)[n] else 0
    requires forall n :: both(n) <==> p(n) && q(n)
    ensures Lists(kept, reg, both)
  {
    forall n ensures multiset(kept)[n] == multiset(Select(reg, both))[n] {
      assert n in Select(reg, both) <==> n in Select(reg, p) && q(n);
    }
  }

  // ----- the views partition the registry -----

  lemma DisjointUnion(a: set<Node>, b: set<Node>, c: set<Node>)
    requires a !! b && c == a + b
    ensures multiset(c) == multiset(a) + multiset(b)
  {
    forall n ensures multiset(c)[n] == (multiset(a) + multiset(b))[n] {
    }
  }

  /** Splitting on a property splits the list of nodes, as multisets. */
  lemma SelectSplit(reg: Nodes, p: Node -> bool, yes: Node -> bool, no: Node -> bool)
    requires forall n :: p(n) <==> yes(n) || no(n)
    requires forall n :: !(yes(n) && no(n))
    ensures multiset(Select(reg, p)) == multiset(Select(reg, yes)) + multiset(Select(reg, no))
  {
    assert Select(reg, p) == Select(reg, yes) + Select(reg, no);
    DisjointUnion(Select(reg, yes), Select(reg, no), Select(reg, p));
  }

  /** After every run, as multisets: the storage and storageless nodes make up the driver nodes, and
      the driver nodes, the disabled nodes and the masters without a driver make up all nodes. */
  lemma ViewsPartition(ops: seq<Op>, all: seq<Node>, drivers: seq<Node>, storage: seq<Node>,
                       storageless: seq<Node>, disabled: seq<Node>)
    requires Lists(all, Run(ops), Any)
    requires Lists(drivers, Run(ops), HasDriver)
    requires Lists(storage, Run(ops), WithStorage)
    requires Lists(storageless, Run(ops), WithoutStorage)
    requires Lists(disabled, Run(ops), Disabled)
    ensures multiset(storage) + multiset(storageless) == multiset(drivers)
    ensures multiset(drivers) + multiset(disabled) + multiset(Select(Run(ops), BareMaster)) == multiset(all)
  {
    var reg := Run(ops);
    SelectSplit(reg, HasDriver, WithStorage, WithoutStorage);
    SelectSplit(reg, Any, HasDriver, WithoutDriver);
    SelectSplit(reg, WithoutDriver, Disabled, BareMaster);
  }
}
