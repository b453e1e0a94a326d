/** The Subtree object as a state machine on values: every operation is a function
    from state to state, and the theorems speak of all runs.
 */
module SubtreeState {
  import opened Sequences
  import opened Hashing
  import opened PowersOfTwo
  import opened Canonical
  import opened MerkleStore
  import opened Results
  import opened Bytes

  datatype Node = Node(hash: Hash, fee: u64, sizeInBytes: u64)

  const COINBASE_PLACEHOLDER: Hash := Repeat(255, 32)

  const ZERO_HASH: Hash := Repeat(0, 32)

  /** The simplest hasher over 32 bytes: every pair has the same hash, which is neither
      zero nor the placeholder. */
  const CONSTANT_HASHER: Hasher<Hash> := Hasher(ZERO_HASH, (a, b) => CONSTANT_HASH)

  const CONSTANT_HASH: Hash := Repeat(1, 32)

  /** The hypothesis of the theorems about subtrees holds of hashes of 32 bytes. */
  lemma {:induction false} ProperIsSatisfiable(hashes: seq<Hash>)
    ensures Proper(CONSTANT_HASHER, hashes) <==> ZERO_HASH !in hashes
  {
    assert CONSTANT_HASH[0] != ZERO_HASH[0];
  }

  datatype State = State(
    nodes: seq<Node>,
    fees: u64,
    sizeInBytes: u64,
    conflicting: seq<Hash>,
    root: Option<Hash>,
    index: Option<map<Hash, nat>>,
    treeSize: int,
    height: int)

  datatype Op =
    | AddNode(node: Node)
    | AddSubtreeNode(node: Node)
    | AddSubtreeNodeWithoutLock(node: Node)
    | AddCoinbaseNode
    | AddConflictingNode(hash: Hash)
    | RemoveNodeAtIndex(i: nat)
    | ReplaceRootNode(node: Node)
    | RootHash
    | NodeIndex(hash: Hash)
    | Duplicate

  datatype Reply = Done | Failed(error: Error) | Root(root: Option<Hash>) | Index(index: int)

  function Hashes(nodes: seq<Node>): (h: seq<Hash>)
    ensures |h| == |nodes|
    ensures forall i :: 0 <= i < |h| ==> h[i] == nodes[i].hash
  {
    seq(|nodes|, i requires 0 <= i < |nodes| => nodes[i].hash)
  }

  function Add64(a: u64, b: u64): u64 {
    (a + b) % TWO_64
  }

  function Sub64(a: u64, b: u64): u64 {
    (a - b) % TWO_64
  }

  // ----- the operations -----

  /** NewTree */
  function EmptyTree(height: nat): State {
    State([], 0, 0, [], None, None, Pow2(height), height)
  }

  function Append(s: State, node: Node): State {
    s.(nodes := s.nodes + [node],
       fees := Add64(s.fees, node.fee),
       sizeInBytes := Add64(s.sizeInBytes, node.sizeInBytes),
       root := None,
       index := if s.index.Some? then Some(s.index.value[node.hash := |s.nodes|]) else None)
  }

  function Remove(s: State, i: nat): State
    requires i < |s.nodes|
  {
    s.(nodes := s.nodes[..i] + s.nodes[i + 1..],
       fees := Sub64(s.fees, s.nodes[i].fee),
       sizeInBytes := Sub64(s.sizeInBytes, s.nodes[i].sizeInBytes),
       root := None,
       index := if s.index.Some? then Some(s.index.value - {s.nodes[i].hash}) else None)
  }

  function Cached(hs: Hasher<Hash>, s: State): State {
    if s.root.Some? || |s.nodes| == 0 then s
    else s.(root := Some(StoreRoot(hs, Hashes(s.nodes))))
  }

  function Replaced(s: State, node: Node): State {
    s.(nodes := if |s.nodes| < 1 then s.nodes + [node] else s.nodes[0 := node],
       root := None,
       sizeInBytes := Add64(s.sizeInBytes, node.sizeInBytes))
  }

  lemma {:induction false} ReplacedHashes(s: State, node: Node)
    ensures Hashes(Replaced(s, node).nodes)
         == if |s.nodes| == 0 then [node.hash] else Hashes(s.nodes)[0 := node.hash]
  {
  }

  /** The map NodeIndex builds on first use. */
  function BuildIndex(nodes: seq<Node>): map<Hash, nat> {
    if nodes == [] then map[]
    else BuildIndex(nodes[..|nodes| - 1])[nodes[|nodes| - 1].hash := |nodes| - 1]
  }

  function Indexed(s: State): State {
    if s.index.None? then s.(index := Some(BuildIndex(s.nodes))) else s
  }

  function Lookup(m: map<Hash, nat>, h: Hash): int {
    if h in m then m[h] else -1
  }

  predicate HasHash(nodes: seq<Node>, h: Hash) {
    exists i :: 0 <= i < |nodes| && nodes[i].hash == h
  }

  function Added(s: State, node: Node, rejectPlaceholder: bool): (State, Reply) {
    if |s.nodes| + 1 > s.treeSize then (s, Failed(SubtreeFull))
    else if rejectPlaceholder && node.hash == COINBASE_PLACEHOLDER then (s, Failed(CoinbasePlaceholderMisuse))
    else (Append(s, node), Done)
  }

  function CoinbaseAdded(s: State): (State, Reply) {
    if |s.nodes| != 0 then (s, Failed(SubtreeNotEmpty))
    else (s.(nodes := [Node(COINBASE_PLACEHOLDER, 0, 0)], root := None, fees := 0, sizeInBytes := 0), Done)
  }

  function ConflictingAdded(s: State, h: Hash): (State, Reply) {
    if !HasHash(s.nodes, h) then (s, Failed(ConflictingNodeNotInSubtree))
    else if h in s.conflicting then (s, Done)
    else (s.(conflicting := s.conflicting + [h]), Done)
  }

  function Removed(s: State, i: nat): (State, Reply) {
    if i >= |s.nodes| then (s, Failed(IndexOutOfRange)) else (Remove(s, i), Done)
  }

  function Apply(hs: Hasher<Hash>, s: State, op: Op): (State, Reply) {
    match op
    case AddNode(node) => Added(s, node, true)
    case AddSubtreeNode(node) => Added(s, node, true)
    case AddSubtreeNodeWithoutLock(node) => Added(s, node, false)
    case AddCoinbaseNode => CoinbaseAdded(s)
    case AddConflictingNode(h) => ConflictingAdded(s, h)
    case RemoveNodeAtIndex(i) => Removed(s, i)
    case ReplaceRootNode(node) => (Cached(hs, Replaced(s, node)), Root(Cached(hs, Replaced(s, node)).root))
    case RootHash => (Cached(hs, s), Root(Cached(hs, s).root))
    case NodeIndex(h) => (Indexed(s), Index(Lookup(Indexed(s).index.value, h)))
    case Duplicate => (s.(index := None), Done)
  }

  function Run(hs: Hasher<Hash>, s: State, ops: seq<Op>): State
    decreases |ops|
  {
    if ops == [] then s else Run(hs, Apply(hs, s, ops[0]).0, ops[1..])
  }

  // ----- the cached root -----

  ghost predicate RootCoherent(hs: Hasher<Hash>, s: State) {
    s.root.Some? ==> |s.nodes| > 0 && s.root.value == StoreRoot(hs, Hashes(s.nodes))
  }

  lemma {:induction false} ApplyKeepsRoot(hs: Hasher<Hash>, s: State, op: Op)
    requires RootCoherent(hs, s)
    ensures RootCoherent(hs, Apply(hs, s, op).0)
  {
  }

  lemma {:induction false} RunKeepsRoot(hs: Hasher<Hash>, s: State, ops: seq<Op>)
    requires RootCoherent(hs, s)
    ensures RootCoherent(hs, Run(hs, s, ops))
    decreases |ops|
  {
    if ops != [] {
      ApplyKeepsRoot(hs, s, ops[0]);
      RunKeepsRoot(hs, Apply(hs, s, ops[0]).0, ops[1..]);
    }
  }

  /** Root cache coherence: after any run, a cached root is the canonical root of the
      nodes the subtree then holds. */
  lemma {:induction false} CachedRootIsCanonical(hs: Hasher<Hash>, height: nat, ops: seq<Op>)
    requires Proper(hs, Hashes(Run(hs, EmptyTree(height), ops).nodes))
    ensures var s := Run(hs, EmptyTree(height), ops);
      s.root.Some? ==> |s.nodes| > 0 && s.root.value == Canonical.Root(hs, Hashes(s.nodes))
  {
    var s := Run(hs, EmptyTree(height), ops);
    RunKeepsRoot(hs, EmptyTree(height), ops);
    if s.root.Some? {
      StoreRootIsRoot(hs, Hashes(s.nodes));
    }
  }

  // ----- the hash index -----

  /** The largest position holding `h`, or -1. */
  function LastPos(nodes: seq<Node>, h: Hash): (r: int)
    ensures -1 <= r < |nodes|
    ensures r >= 0 ==> nodes[r].hash == h
    ensures forall j :: r < j < |nodes| ==> nodes[j].hash != h
  {
    if nodes == [] then -1
    else if nodes[|nodes| - 1].hash == h then |nodes| - 1
    else LastPos(nodes[..|nodes| - 1], h)
  }

  ghost predicate IsIndex(m: map<Hash, nat>, nodes: seq<Node>) {
    forall h: Hash :: Lookup(m, h) == LastPos(nodes, h)
  }

  /** A lookup answers with the largest position. */
  ghost predicate IndexCoherent(s: State) {
    s.index.Some? ==> IsIndex(s.index.value, s.nodes)
  }

  lemma {:induction false} LastPosAppend(nodes: seq<Node>, node: Node, h: Hash)
    ensures LastPos(nodes + [node], h) == if node.hash == h then |nodes| else LastPos(nodes, h)
  {
    assert (nodes + [node])[..|nodes|] == nodes;
  }

  lemma {:induction false} AppendKeepsIndex(m: map<Hash, nat>, nodes: seq<Node>, node: Node)
    requires IsIndex(m, nodes)
    ensures IsIndex(m[node.hash := |nodes|], nodes + [node])
  {
    forall h: Hash ensures Lookup(m[node.hash := |nodes|], h) == LastPos(nodes + [node], h) {
      LastPosAppend(nodes, node, h);
      assert Lookup(m, h) == LastPos(nodes, h);
    }
  }

  lemma {:induction false} BuildIndexIsIndex(nodes: seq<Node>)
    ensures IsIndex(BuildIndex(nodes), nodes)
  {
    if nodes != [] {
      var n := |nodes| - 1;
      BuildIndexIsIndex(nodes[..n]);
      AppendKeepsIndex(BuildIndex(nodes[..n]), nodes[..n], nodes[n]);
      assert nodes[..n] + [nodes[n]] == nodes;
    }
  }

  lemma {:induction false} LookupAfterDelete(m: map<Hash, nat>, d: Hash, h: Hash)
    ensures Lookup(m - {d}, h) == if h == d then -1 else Lookup(m, h)
  {
  }

  /** Later entries are not shifted: removal keeps the index right exactly when it
      removes the last node and no other node has its hash. */
  lemma {:induction false} RemoveKeepsIndexIff(m: map<Hash, nat>, nodes: seq<Node>, i: nat)
    requires IsIndex(m, nodes) && i < |nodes|
    ensures IsIndex(m - {nodes[i].hash}, nodes[..i] + nodes[i + 1..])
       <==> i == |nodes| - 1 && LastPos(nodes[..i], nodes[i].hash) == -1
  {
    var m', d, last := m - {nodes[i].hash}, nodes[i].hash, |nodes| - 1;
    var nodes' := nodes[..i] + nodes[i + 1..];
    if i < last {
      var y := nodes[last].hash;
      LookupAfterDelete(m, d, y);
      assert Lookup(m, y) == LastPos(nodes, y) == last;
      assert nodes'[last - 1].hash == y;
      assert LastPos(nodes', y) == last - 1;
      assert Lookup(m', y) != LastPos(nodes', y);
    } else {
      assert nodes' == nodes[..i];
      LookupAfterDelete(m, d, d);
      if LastPos(nodes', d) == -1 {
        forall h: Hash ensures Lookup(m', h) == LastPos(nodes', h) {
          LookupAfterDelete(m, d, h);
          assert Lookup(m, h) == LastPos(nodes, h);
        }
      } else {
        assert Lookup(m', d) != LastPos(nodes', d);
      }
    }
  }

  lemma {:induction false} LastPosFirstChanged(nodes: seq<Node>, node: Node, h: Hash)
    requires |nodes| > 0
    ensures LastPos(nodes[0 := node], h)
         == if LastPos(nodes, h) > 0 then LastPos(nodes, h) else if node.hash == h then 0 else -1
  {
    var nodes' := nodes[0 := node];
    var r, r' := LastPos(nodes, h), LastPos(nodes', h);
    assert nodes'[0] == node;
    if r > 0 {
      assert nodes'[r] == nodes[r];
    }
    if r' > 0 {
      assert nodes'[r'] == nodes[r'];
    }
  }

  /** Replacing the first node keeps the index right exactly when the hash stays, or
      both the old and the new hash also occur later. */
  lemma {:induction false} ReplaceKeepsIndexIff(m: map<Hash, nat>, nodes: seq<Node>, node: Node)
    requires IsIndex(m, nodes) && |nodes| > 0
    ensures IsIndex(m, nodes[0 := node])
       <==> node.hash == nodes[0].hash || (LastPos(nodes, nodes[0].hash) > 0 && LastPos(nodes, node.hash) > 0)
  {
    var o, x := nodes[0].hash, node.hash;
    forall h: Hash
      ensures Lookup(m, h) == LastPos(nodes, h)
      ensures LastPos(nodes[0 := node], h)
           == if LastPos(nodes, h) > 0 then LastPos(nodes, h) else if x == h then 0 else -1
    {
      LastPosFirstChanged(nodes, node, h);
    }
    if x != o {
      assert LastPos(nodes, o) >= 0;
      if LastPos(nodes, o) == 0 {
        assert Lookup(m, o) != LastPos(nodes[0 := node], o);
      } else if LastPos(nodes, x) <= 0 {
        assert LastPos(nodes, x) == -1;
        assert Lookup(m, x) != LastPos(nodes[0 := node], x);
      }
    }
  }

  /** The operations after which lookups are still right, in the state they meet. */
  ghost predicate KeepsIndex(s: State, op: Op) {
    s.index.Some? ==>
      match op
      case AddCoinbaseNode => s.nodes != []
      case RemoveNodeAtIndex(i) =>
        i >= |s.nodes| || (i == |s.nodes| - 1 && LastPos(s.nodes[..i], s.nodes[i].hash) == -1)
      case ReplaceRootNode(node) =>
        && s.nodes != []
        && (node.hash == s.nodes[0].hash
            || (LastPos(s.nodes, s.nodes[0].hash) > 0 && LastPos(s.nodes, node.hash) > 0))
      case _ => true
  }

  lemma {:induction false} IndexOfFirstNode(m: map<Hash, nat>, node: Node)
    requires IsIndex(m, [])
    ensures !IsIndex(m, [node])
  {
    assert Lookup(m, node.hash) == LastPos([], node.hash);
    assert LastPos([node], node.hash) == 0;
  }

  lemma {:induction false} AddedKeepsIndex(s: State, node: Node, rejectPlaceholder: bool)
    requires IndexCoherent(s)
    ensures IndexCoherent(Added(s, node, rejectPlaceholder).0)
  {
    if s.index.Some? {
      AppendKeepsIndex(s.index.value, s.nodes, node);
    }
  }

  lemma {:induction false} RemovedKeepsIndexIff(s: State, i: nat)
    requires IndexCoherent(s)
    ensures IndexCoherent(Removed(s, i).0) <==> KeepsIndex(s, RemoveNodeAtIndex(i))
  {
    if s.index.Some? && i < |s.nodes| {
      RemoveKeepsIndexIff(s.index.value, s.nodes, i);
    }
  }

  lemma {:induction false} ReplacedKeepsIndexIff(s: State, node: Node)
    requires IndexCoherent(s)
    ensures IndexCoherent(Replaced(s, node)) <==> KeepsIndex(s, ReplaceRootNode(node))
  {
    if s.index.Some? {
      if s.nodes == [] {
        assert s.nodes + [node] == [node];
        IndexOfFirstNode(s.index.value, node);
      } else {
        ReplaceKeepsIndexIff(s.index.value, s.nodes, node);
      }
    }
  }

  /** Exactly these operations keep the index coherent. */
  lemma {:induction false} ApplyKeepsIndexIff(hs: Hasher<Hash>, s: State, op: Op)
    requires IndexCoherent(s)
    ensures IndexCoherent(Apply(hs, s, op).0) <==> KeepsIndex(s, op)
  {
    match op
    case AddNode(node) => AddedKeepsIndex(s, node, true);
    case AddSubtreeNode(node) => AddedKeepsIndex(s, node, true);
    case AddSubtreeNodeWithoutLock(node) => AddedKeepsIndex(s, node, false);
    case AddCoinbaseNode =>
      if s.index.Some? && s.nodes == [] {
        IndexOfFirstNode(s.index.value, Node(COINBASE_PLACEHOLDER, 0, 0));
      }
    case RemoveNodeAtIndex(i) => RemovedKeepsIndexIff(s, i);
    case ReplaceRootNode(node) => ReplacedKeepsIndexIff(s, node);
    case NodeIndex(h) => BuildIndexIsIndex(s.nodes);
    case _ =>
  }

  /** Every operation of the run meets a state in which it keeps the index. */
  ghost predicate AllKeepIndex(hs: Hasher<Hash>, s: State, ops: seq<Op>)
    decreases |ops|
  {
    ops == [] || (KeepsIndex(s, ops[0]) && AllKeepIndex(hs, Apply(hs, s, ops[0]).0, ops[1..]))
  }

  /** The adding operations, lookups and everything that leaves the nodes alone. */
  predicate IsAddOrLookup(op: Op) {
    !op.AddCoinbaseNode? && !op.RemoveNodeAtIndex? && !op.ReplaceRootNode?
  }

  lemma {:induction false} AddsAndLookupsKeepIndex(hs: Hasher<Hash>, s: State, ops: seq<Op>)
    requires forall i :: 0 <= i < |ops| ==> IsAddOrLookup(ops[i])
    ensures AllKeepIndex(hs, s, ops)
    decreases |ops|
  {
    if ops != [] {
      AddsAndLookupsKeepIndex(hs, Apply(hs, s, ops[0]).0, ops[1..]);
    }
  }

  /** Index coherence: after such a run, whenever the index was built, NodeIndex
      answers the largest position of the hash or -1. */
  lemma {:induction false} RunKeepsIndex(hs: Hasher<Hash>, s: State, ops: seq<Op>, h: Hash)
    requires IndexCoherent(s) && AllKeepIndex(hs, s, ops)
    ensures IndexCoherent(Run(hs, s, ops))
    ensures Apply(hs, Run(hs, s, ops), NodeIndex(h)).1 == Index(LastPos(Run(hs, s, ops).nodes, h))
    decreases |ops|
  {
    if ops == [] {
      BuildIndexIsIndex(s.nodes);
    } else {
      ApplyKeepsIndexIff(hs, s, ops[0]);
      RunKeepsIndex(hs, Apply(hs, s, ops[0]).0, ops[1..], h);
    }
  }

  // ----- totals and capacity -----

  function SumFees(nodes: seq<Node>): nat {
    if nodes == [] then 0 else nodes[0].fee + SumFees(nodes[1..])
  }

  function SumSizes(nodes: seq<Node>): nat {
    if nodes == [] then 0 else nodes[0].sizeInBytes + SumSizes(nodes[1..])
  }

  lemma {:induction false} SumsAppend(a: seq<Node>, b: seq<Node>)
    ensures SumFees(a + b) == SumFees(a) + SumFees(b)
    ensures SumSizes(a + b) == SumSizes(a) + SumSizes(b)
  {
    if a == [] {
      assert a + b == b;
    } else {
      assert (a + b)[1..] == a[1..] + b;
      SumsAppend(a[1..], b);
    }
  }

  /** The sums without and with the node at `i`. */
  lemma {:induction false} SumsAround(nodes: seq<Node>, i: nat)
    requires i < |nodes|
    ensures SumFees(nodes) == SumFees(nodes[..i] + nodes[i + 1..]) + nodes[i].fee
    ensures SumSizes(nodes) == SumSizes(nodes[..i] + nodes[i + 1..]) + nodes[i].sizeInBytes
  {
    SumsAppend(nodes[..i], nodes[i + 1..]);
    SumsAppend(nodes[..i], nodes[i..]);
    assert nodes[..i] + nodes[i..] == nodes;
    assert nodes[i..][1..] == nodes[i + 1..];
  }

  lemma {:induction false} AddWraps(sum: nat, x: u64)
    ensures (sum % TWO_64 + x) % TWO_64 == (sum + x) % TWO_64
  {
  }

  lemma {:induction false} SubWraps(sum: nat, x: u64)
    ensures ((sum + x) % TWO_64 - x) % TWO_64 == sum % TWO_64
  {
  }

  /** Two words added to the same sum give the same total only if they are equal. */
  lemma {:induction false} SameTotalIff(sum: nat, x: u64, y: u64)
    ensures (sum + x) % TWO_64 == (sum + y) % TWO_64 <==> x == y
  {
  }

  ghost predicate TotalsMatch(s: State) {
    && s.fees == SumFees(s.nodes) % TWO_64
    && s.sizeInBytes == SumSizes(s.nodes) % TWO_64
  }

  ghost predicate Bounded(s: State) {
    1 <= s.treeSize && |s.nodes| <= s.treeSize && Distinct(s.conflicting)
  }

  lemma {:induction false} AppendKeepsTotals(s: State, node: Node)
    requires TotalsMatch(s)
    ensures TotalsMatch(Append(s, node))
  {
    SumsAppend(s.nodes, [node]);
    assert SumFees([node]) == node.fee && SumSizes([node]) == node.sizeInBytes;
    AddWraps(SumFees(s.nodes), node.fee);
    AddWraps(SumSizes(s.nodes), node.sizeInBytes);
  }

  lemma {:induction false} RemoveKeepsTotals(s: State, i: nat)
    requires TotalsMatch(s) && i < |s.nodes|
    ensures TotalsMatch(Remove(s, i))
  {
    SumsAround(s.nodes, i);
    var rest := s.nodes[..i] + s.nodes[i + 1..];
    SubWraps(SumFees(rest), s.nodes[i].fee);
    SubWraps(SumSizes(rest), s.nodes[i].sizeInBytes);
  }

  /** ReplaceRootNode leaves Fees alone and only adds to SizeInBytes: the totals stay
      right exactly when the fee is the old one and the old size was zero. */
  lemma {:induction false} ReplaceKeepsTotalsIff(hs: Hasher<Hash>, s: State, node: Node)
    requires TotalsMatch(s)
    ensures TotalsMatch(Apply(hs, s, ReplaceRootNode(node)).0)
       <==> node.fee == FirstFee(s) && FirstSize(s) == 0
  {
    ReplaceKeepsFeesIff(s, node);
    ReplaceKeepsSizesIff(s, node);
  }

  lemma {:induction false} ReplaceKeepsFeesIff(s: State, node: Node)
    requires s.fees == SumFees(s.nodes) % TWO_64
    ensures s.fees == SumFees(Replaced(s, node).nodes) % TWO_64 <==> node.fee == FirstFee(s)
  {
    var rest := if s.nodes == [] then [] else s.nodes[1..];
    SumsAroundFirst(s, node, rest);
    SameTotalIff(SumFees(rest), FirstFee(s), node.fee);
  }

  lemma {:induction false} ReplaceKeepsSizesIff(s: State, node: Node)
    requires s.sizeInBytes == SumSizes(s.nodes) % TWO_64
    ensures Replaced(s, node).sizeInBytes == SumSizes(Replaced(s, node).nodes) % TWO_64 <==> FirstSize(s) == 0
  {
    var rest := if s.nodes == [] then [] else s.nodes[1..];
    SumsAroundFirst(s, node, rest);
    SizeAfterReplaceIff(SumSizes(rest), FirstSize(s), node.sizeInBytes);
  }

  lemma {:induction false} SumsAroundFirst(s: State, node: Node, rest: seq<Node>)
    requires rest == if s.nodes == [] then [] else s.nodes[1..]
    ensures SumFees(s.nodes) == SumFees(rest) + FirstFee(s)
    ensures SumSizes(s.nodes) == SumSizes(rest) + FirstSize(s)
    ensures SumFees(Replaced(s, node).nodes) == SumFees(rest) + node.fee
    ensures SumSizes(Replaced(s, node).nodes) == SumSizes(rest) + node.sizeInBytes
  {
    var after := Replaced(s, node).nodes;
    assert after == [node] + rest && after[1..] == rest;
  }

  function FirstFee(s: State): u64 {
    if s.nodes == [] then 0 else s.nodes[0].fee
  }

  function FirstSize(s: State): u64 {
    if s.nodes == [] then 0 else s.nodes[0].sizeInBytes
  }

  lemma {:induction false} SizeAfterReplaceIff(sum: nat, size: u64, newSize: u64)
    ensures ((sum + size) % TWO_64 + newSize) % TWO_64 == (sum + newSize) % TWO_64 <==> size == 0
  {
    AddWraps(sum + size, newSize);
    SameTotalIff(sum + newSize, size, 0);
  }

  lemma {:induction false} ApplyKeepsTotals(hs: Hasher<Hash>, s: State, op: Op)
    requires TotalsMatch(s) && !op.ReplaceRootNode?
    ensures TotalsMatch(Apply(hs, s, op).0)
  {
    match op
    case AddNode(node) => AppendKeepsTotals(s, node);
    case AddSubtreeNode(node) => AppendKeepsTotals(s, node);
    case AddSubtreeNodeWithoutLock(node) => AppendKeepsTotals(s, node);
    case AddCoinbaseNode =>
      var c := Node(COINBASE_PLACEHOLDER, 0, 0);
      assert SumFees([c]) == 0 && SumSizes([c]) == 0;
    case RemoveNodeAtIndex(i) =>
      if i < |s.nodes| {
        RemoveKeepsTotals(s, i);
      }
    case _ =>
  }

  /** Exactly when an operation keeps the nodes within the tree size: AddCoinbaseNode and
      ReplaceRootNode do not look at it, which matters when it is zero, as it is after a
      subtree without nodes has been read. */
  lemma {:induction false} ApplyKeepsCapacityIff(hs: Hasher<Hash>, s: State, op: Op)
    requires |s.nodes| <= s.treeSize
    ensures |Apply(hs, s, op).0.nodes| <= Apply(hs, s, op).0.treeSize
       <==> s.treeSize >= 1 || (!op.AddCoinbaseNode? && !op.ReplaceRootNode?)
  {
    match op
    case AddCoinbaseNode =>
    case ReplaceRootNode(node) =>
      assert s.nodes == [] ==> |Replaced(s, node).nodes| == 1;
    case _ =>
  }

  /** No hash is recorded as conflicting twice, whatever the tree size. */
  lemma {:induction false} RunKeepsDistinct(hs: Hasher<Hash>, s: State, ops: seq<Op>)
    requires Distinct(s.conflicting)
    ensures Distinct(Run(hs, s, ops).conflicting)
    decreases |ops|
  {
    if ops != [] {
      RunKeepsDistinct(hs, Apply(hs, s, ops[0]).0, ops[1..]);
    }
  }

  lemma {:induction false} ApplyKeepsBounds(hs: Hasher<Hash>, s: State, op: Op)
    requires Bounded(s)
    ensures Bounded(Apply(hs, s, op).0) && Apply(hs, s, op).0.treeSize == s.treeSize
  {
  }

  /** Capacity over every run, totals over every run without ReplaceRootNode. */
  lemma {:induction false} RunKeepsTotals(hs: Hasher<Hash>, s: State, ops: seq<Op>)
    requires Bounded(s)
    ensures Bounded(Run(hs, s, ops)) && Run(hs, s, ops).treeSize == s.treeSize
    ensures TotalsMatch(s) && (forall i :: 0 <= i < |ops| ==> !ops[i].ReplaceRootNode?) ==>
      TotalsMatch(Run(hs, s, ops))
    decreases |ops|
  {
    if ops != [] {
      ApplyKeepsBounds(hs, s, ops[0]);
      if TotalsMatch(s) && !ops[0].ReplaceRootNode? {
        ApplyKeepsTotals(hs, s, ops[0]);
      }
      RunKeepsTotals(hs, Apply(hs, s, ops[0]).0, ops[1..]);
    }
  }
}
