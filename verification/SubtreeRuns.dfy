/** Runs of operations on the object itself. */
module SubtreeRuns {
  import opened Hashing
  import opened Bytes
  import opened SubtreeState
  import opened Subtrees

  /** One operation on the object; Duplicate continues with the copy. */
  method Perform(cur: Subtree, hs: Hasher<Hash>, op: Op) returns (next: Subtree, r: Reply)
    requires cur.Valid()
    modifies cur, cur.nodes
    ensures next.Valid() && (next.View(), r) == Apply(hs, old(cur.View()), op)
    ensures if op.Duplicate? then fresh(next) && fresh(next.nodes) else next == cur
    ensures next.nodes == old(cur.nodes) || fresh(next.nodes)
    ensures !op.Duplicate? && old(1 <= cur.treeSize <= cur.nodes.Length) ==> next.nodes == old(cur.nodes)
  {
    next := cur;
    match op {
      case AddNode(node) => r := cur.AddNode(node.hash, node.fee, node.sizeInBytes);
      case AddSubtreeNode(node) => r := cur.AddSubtreeNode(node);
      case AddSubtreeNodeWithoutLock(node) => r := cur.AddSubtreeNodeWithoutLock(node);
      case AddCoinbaseNode => r := cur.AddCoinbaseNode();
      case AddConflictingNode(h) => r := cur.AddConflictingNode(h);
      case RemoveNodeAtIndex(i) => r := cur.RemoveNodeAtIndex(i);
      case ReplaceRootNode(node) =>
        var root := cur.ReplaceRootNode(hs, node.hash, node.fee, node.sizeInBytes);
        r := Root(root);
      case RootHash =>
        var root := cur.RootHash(hs);
        r := Root(root);
      case NodeIndex(h) =>
        var i := cur.NodeIndex(h);
        r := Index(i);
      case Duplicate =>
        next := cur.Duplicate();
        r := Done;
    }
  }

  /** Any run makes the run of the state machine. On a tree whose capacity is its size,
      as NewTree makes it, and without copying, the object and its node array stay. */
  method Execute(st: Subtree, hs: Hasher<Hash>, ops: seq<Op>) returns (cur: Subtree)
    requires st.Valid()
    modifies st, st.nodes
    ensures cur.Valid() && cur.View() == Run(hs, old(st.View()), ops)
    ensures old(1 <= st.treeSize <= st.nodes.Length) && (forall i :: 0 <= i < |ops| ==> !ops[i].Duplicate?) ==>
      cur == st && cur.nodes == old(st.nodes)
  {
    cur := st;
    var i := 0;
    while i < |ops|
      invariant 0 <= i <= |ops|
      invariant cur == st || fresh(cur)
      invariant cur.nodes == old(st.nodes) || fresh(cur.nodes)
      invariant cur.Valid() && Run(hs, cur.View(), ops[i..]) == Run(hs, old(st.View()), ops)
      invariant old(1 <= st.treeSize <= st.nodes.Length) && (forall j :: 0 <= j < i ==> !ops[j].Duplicate?) ==>
        cur == st && cur.nodes == old(st.nodes) && cur.treeSize == old(st.treeSize)
    {
      ghost var before := cur.View();
      assert ops[i..][0] == ops[i] && ops[i..][1..] == ops[i + 1..];
      SizeIsFixed(hs, before, ops[i]);
      var next, _ := Perform(cur, hs, ops[i]);
      cur := next;
      i := i + 1;
    }
  }

  lemma {:induction false} SizeIsFixed(hs: Hasher<Hash>, s: State, op: Op)
    ensures Apply(hs, s, op).0.treeSize == s.treeSize && Apply(hs, s, op).0.height == s.height
  {
  }
}
