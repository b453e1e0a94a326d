/** The Subtree object: methods that update its fields and its node array in place,
    each proved to make one step of the state machine.
 */
module Subtrees {
  import opened Sequences
  import opened Hashing
  import opened PowersOfTwo
  import opened MerkleStore
  import opened MerkleFill
  import MP = MerkleProof
  import opened Results
  import opened Bytes
  import opened SubtreeState

  class Subtree {
    var height: int
    var fees: u64
    var sizeInBytes: u64
    var nodes: array<Node>  // the backing array; its Length is the capacity
    var length: nat         // how many of its cells are in use
    var conflictingNodes: seq<Hash>
    var rootHash: Option<Hash>
    var treeSize: int
    var nodeIndex: Option<map<Hash, nat>>

    ghost predicate Valid()
      reads this
    {
      length <= nodes.Length
    }

    ghost function Nodes(): (s: seq<Node>)
      requires Valid()
      reads this, nodes
      ensures |s| == length
    {
      nodes[..length]
    }

    ghost function View(): State
      requires Valid()
      reads this, nodes
    {
      State(Nodes(), fees, sizeInBytes, conflictingNodes, rootHash, nodeIndex, treeSize, height)
    }

    constructor (height: nat)
      ensures Valid() && fresh(nodes) && nodes.Length == treeSize
      ensures View() == EmptyTree(height)
    {
      this.height := height;
      fees, sizeInBytes := 0, 0;
      nodes := new Node[Pow2(height)];
      length := 0;
      conflictingNodes := [];
      rootHash, nodeIndex := None, None;
      treeSize := Pow2(height);
    }

    static method NewTree(height: int) returns (r: Result<Subtree>)
      ensures r == Err(HeightNegative) <==> height < 0
      ensures height >= 0 ==>
        && r.Ok? && fresh(r.value) && fresh(r.value.nodes) && r.value.Valid()
        && r.value.View() == EmptyTree(height) && r.value.nodes.Length == r.value.treeSize
    {
      if height < 0 {
        return Err(HeightNegative);
      }
      var st := new Subtree(height);
      return Ok(st);
    }

    static method NewTreeByLeafCount(maxNumberOfLeaves: int) returns (r: Result<Subtree>)
      ensures r == Err(NotPowerOfTwo) <==> !IsPow2(maxNumberOfLeaves)
      ensures IsPow2(maxNumberOfLeaves) ==>
        && maxNumberOfLeaves > 0
        && r.Ok? && fresh(r.value) && fresh(r.value.nodes) && r.value.Valid()
        && r.value.View() == EmptyTree(CeilLog2(maxNumberOfLeaves))
        && r.value.treeSize == maxNumberOfLeaves == r.value.nodes.Length
    {
      IsPowerOfTwoIff(maxNumberOfLeaves);
      if !IsPowerOfTwo(maxNumberOfLeaves) {
        return Err(NotPowerOfTwo);
      }
      HeightAgreement(maxNumberOfLeaves);
      r := NewTree(CeilLog2(maxNumberOfLeaves));
    }

    /** append(st.Nodes, node): in place while there is capacity, else into a new array. */
    method AppendNode(node: Node)
      requires Valid()
      modifies this`nodes, this`length, nodes
      ensures Valid() && Nodes() == old(Nodes()) + [node]
      ensures old(length < nodes.Length) ==> nodes == old(nodes)
      ensures nodes == old(nodes) || fresh(nodes)
    {
      if length == nodes.Length {
        var extra: nat :| extra > 0;
        var grown := new Node[length + extra];
        forall i | 0 <= i < length {
          grown[i] := nodes[i];
        }
        nodes := grown;
      }
      nodes[length] := node;
      length := length + 1;
    }

    /** The part the three adding operations share. */
    method Add(node: Node, rejectPlaceholder: bool) returns (r: Reply)
      requires Valid()
      modifies this, nodes
      ensures Valid() && (View(), r) == Added(old(View()), node, rejectPlaceholder)
      ensures old(length < nodes.Length || treeSize <= nodes.Length) ==> nodes == old(nodes)
      ensures nodes == old(nodes) || fresh(nodes)
    {
      if length + 1 > treeSize {
        return Failed(SubtreeFull);
      }
      if rejectPlaceholder && node.hash == COINBASE_PLACEHOLDER {
        return Failed(CoinbasePlaceholderMisuse);
      }
      AppendNode(node);
      rootHash := None;
      fees := Add64(fees, node.fee);
      sizeInBytes := Add64(sizeInBytes, node.sizeInBytes);
      if nodeIndex.Some? {
        nodeIndex := Some(nodeIndex.value[node.hash := length - 1]);
      }
      return Done;
    }

    method AddSubtreeNode(node: Node) returns (r: Reply)
      requires Valid()
      modifies this, nodes
      ensures Valid() && (View(), r) == Added(old(View()), node, true)
      ensures r == Done ==> Nodes() == old(Nodes()) + [node]
      ensures old(length < nodes.Length || treeSize <= nodes.Length) ==> nodes == old(nodes)
      ensures nodes == old(nodes) || fresh(nodes)
    {
      r := Add(node, true);
    }

    method AddNode(node: Hash, fee: u64, sizeInBytes: u64) returns (r: Reply)
      requires Valid()
      modifies this, nodes
      ensures Valid() && (View(), r) == Added(old(View()), Node(node, fee, sizeInBytes), true)
      ensures r == Done ==> Nodes() == old(Nodes()) + [Node(node, fee, sizeInBytes)]
      ensures old(length < nodes.Length || treeSize <= nodes.Length) ==> nodes == old(nodes)
      ensures nodes == old(nodes) || fresh(nodes)
    {
      r := Add(Node(node, fee, sizeInBytes), true);
    }

    method AddSubtreeNodeWithoutLock(node: Node) returns (r: Reply)
      requires Valid()
      modifies this, nodes
      ensures Valid() && (View(), r) == Added(old(View()), node, false)
      ensures r == Done <==> old(length) < treeSize
      ensures r == Done ==> Nodes() == old(Nodes()) + [node]
      ensures old(length < nodes.Length || treeSize <= nodes.Length) ==> nodes == old(nodes)
      ensures nodes == old(nodes) || fresh(nodes)
    {
      r := Add(node, false);
    }

    method AddCoinbaseNode() returns (r: Reply)
      requires Valid()
      modifies this, nodes
      ensures Valid() && (View(), r) == CoinbaseAdded(old(View()))
      ensures old(nodes.Length > 0) ==> nodes == old(nodes)
      ensures nodes == old(nodes) || fresh(nodes)
    {
      if length != 0 {
        return Failed(SubtreeNotEmpty);
      }
      AppendNode(Node(COINBASE_PLACEHOLDER, 0, 0));
      rootHash := None;
      fees := 0;
      sizeInBytes := 0;
      assert Nodes() == [Node(COINBASE_PLACEHOLDER, 0, 0)];
      return Done;
    }

    method AddConflictingNode(newConflictingNode: Hash) returns (r: Reply)
      requires Valid()
      modifies this`conflictingNodes
      ensures Valid() && (View(), r) == ConflictingAdded(old(View()), newConflictingNode)
      ensures r == Done ==> newConflictingNode in conflictingNodes
    {
      var found := false;
      var i := 0;
      while i < length && !found
        invariant 0 <= i <= length
        invariant found <==> HasHash(nodes[..i], newConflictingNode)
        decreases length - i, !found
      {
        assert nodes[..i + 1] == nodes[..i] + [nodes[i]];
        found := nodes[i].hash == newConflictingNode;
        i := i + 1;
      }
      assert found ==> HasHash(Nodes(), newConflictingNode);
      if !found {
        return Failed(ConflictingNodeNotInSubtree);
      }
      var j := 0;
      while j < |conflictingNodes|
        invariant 0 <= j <= |conflictingNodes|
        invariant newConflictingNode !in conflictingNodes[..j]
      {
        if conflictingNodes[j] == newConflictingNode {
          return Done;
        }
        j := j + 1;
      }
      conflictingNodes := conflictingNodes + [newConflictingNode];
      return Done;
    }

    /** append(st.Nodes[:index], st.Nodes[index+1:]...): the tail moves down in place. */
    method DeleteNode(index: nat)
      requires Valid() && index < length
      modifies this`length, nodes
      ensures Valid() && Nodes() == old(Nodes())[..index] + old(Nodes())[index + 1..]
    {
      ghost var s := Nodes();
      ghost var rest := s[..index] + s[index + 1..];
      var i := index;
      while i + 1 < length
        invariant Valid() && length == |s| && index <= i < length
        invariant forall k :: 0 <= k < i ==> nodes[k] == rest[k]
        invariant forall k :: i <= k < length ==> nodes[k] == s[k]
      {
        nodes[i] := nodes[i + 1];
        i := i + 1;
      }
      length := length - 1;
    }

    method RemoveNodeAtIndex(index: nat) returns (r: Reply)
      requires Valid()
      modifies this, nodes
      ensures Valid() && (View(), r) == Removed(old(View()), index)
      ensures r == Done <==> index < old(length)
      ensures r == Done ==> IsWithout(Nodes(), old(Nodes()), index)
      ensures nodes == old(nodes)
    {
      if index >= length {
        return Failed(IndexOutOfRange);
      }
      fees := Sub64(fees, nodes[index].fee);
      sizeInBytes := Sub64(sizeInBytes, nodes[index].sizeInBytes);
      var hash := nodes[index].hash;
      CutIsWithout(Nodes(), index);
      DeleteNode(index);
      rootHash := None;
      if nodeIndex.Some? {
        nodeIndex := Some(nodeIndex.value - {hash});
      }
      return Done;
    }

    /** The hashes of the nodes in use. */
    method NodeHashes() returns (h: seq<Hash>)
      requires Valid()
      ensures h == Hashes(Nodes())
    {
      h := seq(length, i requires 0 <= i < length <= nodes.Length reads this, nodes => nodes[i].hash);
    }

    method ComputeRoot(hs: Hasher<Hash>) returns (root: Hash)
      requires Valid() && length > 0
      ensures root == StoreRoot(hs, Hashes(Nodes()))
    {
      var hashes := NodeHashes();
      var store := BuildMerkleTreeStoreFromBytes(hs, hashes);
      StoreLength(hs, hashes);
      root := store[store.Length - 1];
    }

    method RootHash(hs: Hasher<Hash>) returns (root: Option<Hash>)
      requires Valid()
      modifies this`rootHash
      ensures Valid() && View() == Cached(hs, old(View())) && root == View().root
      ensures length > 0 ==> root.Some?
    {
      if rootHash.Some? {
        return rootHash;
      }
      if length == 0 {
        return None;
      }
      var computed := ComputeRoot(hs);
      rootHash := Some(computed);
      return rootHash;
    }

    /** The loop of RootHashPadded: one hash with itself per missing level. */
    static method LiftRoot(hs: Hasher<Hash>, natural: Hash, levels: nat) returns (root: Hash)
      ensures root == Lift(hs, natural, levels)
    {
      root := natural;
      for i := 0 to levels
        invariant Lift(hs, root, levels - i) == Lift(hs, natural, levels)
      {
        root := hs.pair(root, root);
      }
    }

    /** A nil subtree is an error, an empty one has no root. */
    static method RootHashPadded(st: Subtree?, hs: Hasher<Hash>, targetHeight: int)
      returns (r: Result<Option<Hash>>)
      requires st != null ==> st.Valid()
      modifies st
      ensures st == null ==> r == Err(SubtreeNil)
      ensures st != null ==> st.Valid() && st.nodes == old(st.nodes)
      ensures st != null && old(st.length) == 0 ==> st.View() == old(st.View()) && r == Ok(None)
      ensures st != null && old(st.length) > 0 ==>
        if targetHeight < CeilLog2(old(st.length)) then
          st.View() == old(st.View()) && r == Err(TargetHeightTooSmall)
        else
          && st.View() == Cached(hs, old(st.View())) && st.View().root.Some?
          && r == Ok(Some(Lift(hs, st.View().root.value, targetHeight - CeilLog2(old(st.length)))))
    {
      if st == null {
        return Err(SubtreeNil);
      }
      if st.length == 0 {
        return Ok(None);
      }
      r := st.LiftedRoot(hs, targetHeight);
    }

    /** bits.Len(length - 1) */
    method ActualHeight() returns (h: nat)
      requires length > 0
      ensures h == CeilLog2(length)
    {
      h := BitLen(length - 1);
      HeightAgreement(length);
    }

    /** RootHashPadded on a subtree with nodes. */
    method LiftedRoot(hs: Hasher<Hash>, targetHeight: int) returns (r: Result<Option<Hash>>)
      requires Valid() && length > 0
      modifies this`rootHash
      ensures Valid()
      ensures if targetHeight < CeilLog2(length) then
                View() == old(View()) && r == Err(TargetHeightTooSmall)
              else
                && View() == Cached(hs, old(View())) && View().root.Some?
                && r == Ok(Some(Lift(hs, View().root.value, targetHeight - CeilLog2(length))))
    {
      var actualHeight := ActualHeight();
      if targetHeight < actualHeight {
        return Err(TargetHeightTooSmall);
      }
      var cached := RootHash(hs);
      var root := LiftRoot(hs, cached.value, targetHeight - actualHeight);
      return Ok(Some(root));
    }

    /** A copy with its own node array; the index is not copied. */
    method Duplicate() returns (d: Subtree)
      requires Valid()
      ensures fresh(d) && fresh(d.nodes) && d.Valid() && d.nodes.Length == length
      ensures d.View() == View().(index := None)
    {
      var copied := new Node[length];
      forall i | 0 <= i < length {
        copied[i] := nodes[i];
      }
      d := new Subtree(0);
      d.height, d.fees, d.sizeInBytes := height, fees, sizeInBytes;
      d.nodes, d.length := copied, length;
      d.conflictingNodes, d.rootHash, d.treeSize := conflictingNodes, rootHash, treeSize;
      assert copied[..] == nodes[..length];
    }

    method ReplaceRootNode(hs: Hasher<Hash>, node: Hash, fee: u64, sizeInBytes: u64) returns (root: Option<Hash>)
      requires Valid()
      modifies this, nodes
      ensures Valid() && View() == Cached(hs, Replaced(old(View()), Node(node, fee, sizeInBytes)))
      ensures root == View().root
      ensures length == (if old(length) == 0 then 1 else old(length)) && Nodes()[0] == Node(node, fee, sizeInBytes)
      ensures forall k :: 1 <= k < length ==> Nodes()[k] == old(Nodes())[k]
      ensures old(length) <= 1 ==> root == Some(node)
      ensures old(nodes.Length > 0) ==> nodes == old(nodes)
      ensures nodes == old(nodes) || fresh(nodes)
    {
      if length < 1 {
        AppendNode(Node(node, fee, sizeInBytes));
      } else {
        nodes[0] := Node(node, fee, sizeInBytes);
      }
      rootHash := None;
      this.sizeInBytes := Add64(this.sizeInBytes, sizeInBytes);
      root := RootHash(hs);
    }

    /** The root with the first node replaced; nothing that existed before changes. */
    static method RootHashWithReplaceRootNode(st: Subtree?, hs: Hasher<Hash>, node: Hash, fee: u64, sizeInBytes: u64)
      returns (r: Result<Hash>)
      requires st != null ==> st.Valid()
      ensures st == null ==> r == Err(SubtreeNil)
      ensures st != null ==>
        var after := Replaced(st.View(), Node(node, fee, sizeInBytes)).nodes;
        |after| > 0 && r == Ok(StoreRoot(hs, Hashes(after)))
      ensures st != null && st.length <= 1 ==> r == Ok(node)
      ensures st != null && st.length > 0 ==> r == Ok(StoreRoot(hs, Hashes(st.Nodes())[0 := node]))
    {
      if st == null {
        return Err(SubtreeNil);
      }
      ReplacedHashes(st.View(), Node(node, fee, sizeInBytes));
      var root := st.RootOfClone(hs, node, fee, sizeInBytes);
      if st.length <= 1 {
        StoreRootOfOne(hs, Hashes(Replaced(st.View(), Node(node, fee, sizeInBytes)).nodes));
      }
      return Ok(root);
    }

    /** The replacement takes place in a copy. */
    method RootOfClone(hs: Hasher<Hash>, node: Hash, fee: u64, sizeInBytes: u64) returns (root: Hash)
      requires Valid()
      ensures
        var after := Replaced(View(), Node(node, fee, sizeInBytes)).nodes;
        |after| > 0 && root == StoreRoot(hs, Hashes(after))
    {
      var clone := Duplicate();
      var _ := clone.ReplaceRootNode(hs, node, fee, sizeInBytes);
      root := clone.ComputeRoot(hs);
    }

    method NodeIndex(hash: Hash) returns (i: int)
      requires Valid()
      modifies this`nodeIndex
      ensures Valid() && View() == Indexed(old(View()))
      ensures i == Lookup(View().index.value, hash)
    {
      if nodeIndex.None? {
        var m: map<Hash, nat> := map[];
        var idx := 0;
        while idx < length
          invariant 0 <= idx <= length
          invariant m == BuildIndex(nodes[..idx])
        {
          assert nodes[..idx + 1][..idx] == nodes[..idx];
          m := m[nodes[idx].hash := idx];
          idx := idx + 1;
        }
        nodeIndex := Some(m);
      }
      if hash in nodeIndex.value {
        return nodeIndex.value[hash];
      }
      return -1;
    }

    method GetMerkleProof(hs: Hasher<Hash>, index: nat) returns (r: Result<seq<Hash>>)
      requires Valid()
      ensures r == Err(IndexOutOfRange) <==> index >= length
      ensures index < length ==> r.Ok? && |r.value| == CeilLog2(length)
      ensures index < length && Proper(hs, Hashes(Nodes())) ==> r == Ok(MP.Siblings(hs, Hashes(Nodes()), index))
    {
      var hashes := NodeHashes();
      r := MP.GetMerkleProof(hs, hashes, index);
    }
  }
}
