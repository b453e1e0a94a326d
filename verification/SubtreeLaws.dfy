/** What each operation of a subtree means, position by position, and over runs: which
    nodes it leaves where, what it answers, and what it does not touch.
 */
module SubtreeLaws {
  import opened Sequences
  import opened Hashing
  import opened PowersOfTwo
  import opened Canonical
  import opened MerkleStore
  import opened Results
  import opened Bytes
  import opened SubtreeState

  /** The answers of a run, call by call. */
  function Replies(hs: Hasher<Hash>, s: State, ops: seq<Op>): (r: seq<Reply>)
    ensures |r| == |ops|
    decreases |ops|
  {
    if ops == [] then []
    else [Apply(hs, s, ops[0]).1] + Replies(hs, Apply(hs, s, ops[0]).0, ops[1..])
  }

  /** A new tree: empty, of 2^height places, with right totals, no cached root and no index. */
  lemma {:induction false} NewTreeIsEmpty(height: nat)
    ensures var s := EmptyTree(height);
      && s.nodes == [] && s.conflicting == [] && s.root == None && s.index == None
      && s.height == height && s.treeSize == Pow2(height)
      && TotalsMatch(s) && Bounded(s)
  {
  }

  // ----- adding -----

  predicate IsAdd(op: Op) {
    op.AddNode? || op.AddSubtreeNode? || op.AddSubtreeNodeWithoutLock?
  }

  predicate RefusesPlaceholder(op: Op) {
    op.AddNode? || op.AddSubtreeNode?
  }

  /** A full tree and then, by two of the operations, the placeholder are refused without
      any change; otherwise the node stands behind the others, as it was given. */
  lemma {:induction false} AddOutcome(hs: Hasher<Hash>, s: State, op: Op)
    requires IsAdd(op)
    ensures var (t, r) := Apply(hs, s, op);
      && (r == Failed(SubtreeFull) <==> |s.nodes| >= s.treeSize)
      && (r == Failed(CoinbasePlaceholderMisuse) <==>
            |s.nodes| < s.treeSize && RefusesPlaceholder(op) && op.node.hash == COINBASE_PLACEHOLDER)
      && (r == Done <==>
            |s.nodes| < s.treeSize && !(RefusesPlaceholder(op) && op.node.hash == COINBASE_PLACEHOLDER))
      && (r != Done ==> t == s)
      && (r == Done ==>
            && |t.nodes| == |s.nodes| + 1 && t.nodes[|s.nodes|] == op.node
            && (forall k :: 0 <= k < |s.nodes| ==> t.nodes[k] == s.nodes[k])
            && t.fees == (s.fees + op.node.fee) % TWO_64
            && t.sizeInBytes == (s.sizeInBytes + op.node.sizeInBytes) % TWO_64
            && t.conflicting == s.conflicting)
  {
  }

  /** The nodes of the calls that were answered Done. */
  function DoneNodes(ops: seq<Op>, replies: seq<Reply>): seq<Node>
    requires |ops| == |replies| && forall i :: 0 <= i < |ops| ==> IsAdd(ops[i])
  {
    if ops == [] then []
    else
      assert IsAdd(ops[0]);
      (if replies[0] == Done then [ops[0].node] else []) + DoneNodes(ops[1..], replies[1..])
  }

  /** Any run of adding operations records exactly the nodes of the calls answered Done, in
      order, and adds up their fees and sizes. */
  lemma {:induction false} AddsRecordDone(hs: Hasher<Hash>, s: State, ops: seq<Op>, added: seq<Node>)
    requires forall i :: 0 <= i < |ops| ==> IsAdd(ops[i])
    requires added == DoneNodes(ops, Replies(hs, s, ops))
    ensures Run(hs, s, ops).nodes == s.nodes + added
    ensures Run(hs, s, ops).fees == (s.fees + SumFees(added)) % TWO_64
    ensures Run(hs, s, ops).sizeInBytes == (s.sizeInBytes + SumSizes(added)) % TWO_64
    ensures Run(hs, s, ops).conflicting == s.conflicting
    decreases |ops|
  {
    if ops == [] {
      assert s.nodes + added == s.nodes;
    } else {
      var t, r := Apply(hs, s, ops[0]).0, Apply(hs, s, ops[0]).1;
      var more := DoneNodes(ops[1..], Replies(hs, t, ops[1..]));
      assert Replies(hs, s, ops) == [r] + Replies(hs, t, ops[1..]);
      assert added == (if r == Done then [ops[0].node] else []) + more;
      AddsRecordDone(hs, t, ops[1..], more);
      OneAdded(hs, s, ops[0], t, r, more, added);
    }
  }

  lemma {:induction false} OneAdded(
      hs: Hasher<Hash>, s: State, op: Op, t: State, r: Reply, more: seq<Node>, added: seq<Node>)
    requires IsAdd(op) && (t, r) == Apply(hs, s, op)
    requires added == (if r == Done then [op.node] else []) + more
    ensures t.nodes + more == s.nodes + added && t.conflicting == s.conflicting
    ensures (t.fees + SumFees(more)) % TWO_64 == (s.fees + SumFees(added)) % TWO_64
    ensures (t.sizeInBytes + SumSizes(more)) % TWO_64 == (s.sizeInBytes + SumSizes(added)) % TWO_64
  {
    AddOutcome(hs, s, op);
    if r == Done {
      AddedThenMore(s, t, op.node, more);
    } else {
      assert added == more;
    }
  }

  /** One node behind those of `s`, and then `more`. */
  lemma {:induction false} AddedThenMore(s: State, t: State, node: Node, more: seq<Node>)
    requires |t.nodes| == |s.nodes| + 1 && t.nodes[|s.nodes|] == node
    requires forall k :: 0 <= k < |s.nodes| ==> t.nodes[k] == s.nodes[k]
    requires t.fees == (s.fees + node.fee) % TWO_64
    requires t.sizeInBytes == (s.sizeInBytes + node.sizeInBytes) % TWO_64
    ensures t.nodes + more == s.nodes + ([node] + more)
    ensures (t.fees + SumFees(more)) % TWO_64 == (s.fees + SumFees([node] + more)) % TWO_64
    ensures (t.sizeInBytes + SumSizes(more)) % TWO_64 == (s.sizeInBytes + SumSizes([node] + more)) % TWO_64
  {
    assert t.nodes == s.nodes + [node];
    assert ([node] + more)[1..] == more;
    SumWraps(s.fees, node.fee, SumFees(more));
    SumWraps(s.sizeInBytes, node.sizeInBytes, SumSizes(more));
  }

  lemma {:induction false} SumWraps(a: u64, x: u64, sum: nat)
    ensures ((a + x) % TWO_64 + sum) % TWO_64 == (a + (x + sum)) % TWO_64
  {
  }

  /** Where there is room, and no placeholder for an operation that refuses it, every call
      is answered Done, so all nodes are there. */
  lemma {:induction false} AddsAppend(hs: Hasher<Hash>, s: State, ops: seq<Op>, xs: seq<Node>)
    requires |ops| == |xs| && |s.nodes| + |xs| <= s.treeSize
    requires forall i :: 0 <= i < |ops| ==>
      && IsAdd(ops[i]) && ops[i].node == xs[i]
      && (RefusesPlaceholder(ops[i]) ==> xs[i].hash != COINBASE_PLACEHOLDER)
    ensures forall i :: 0 <= i < |ops| ==> Replies(hs, s, ops)[i] == Done
    ensures Run(hs, s, ops).nodes == s.nodes + xs
    ensures Run(hs, s, ops).fees == (s.fees + SumFees(xs)) % TWO_64
    ensures Run(hs, s, ops).sizeInBytes == (s.sizeInBytes + SumSizes(xs)) % TWO_64
    decreases |ops|
  {
    AllDone(hs, s, ops);
    AllDoneNodes(ops, Replies(hs, s, ops), xs);
    AddsRecordDone(hs, s, ops, xs);
  }

  lemma {:induction false} AllDone(hs: Hasher<Hash>, s: State, ops: seq<Op>)
    requires |s.nodes| + |ops| <= s.treeSize
    requires forall i :: 0 <= i < |ops| ==>
      IsAdd(ops[i]) && (RefusesPlaceholder(ops[i]) ==> ops[i].node.hash != COINBASE_PLACEHOLDER)
    ensures forall i :: 0 <= i < |ops| ==> Replies(hs, s, ops)[i] == Done
    decreases |ops|
  {
    if ops != [] {
      AllDone(hs, Apply(hs, s, ops[0]).0, ops[1..]);
    }
  }

  lemma {:induction false} AllDoneNodes(ops: seq<Op>, replies: seq<Reply>, xs: seq<Node>)
    requires |ops| == |replies| == |xs|
    requires forall i :: 0 <= i < |ops| ==> IsAdd(ops[i]) && ops[i].node == xs[i] && replies[i] == Done
    ensures DoneNodes(ops, replies) == xs
    decreases |ops|
  {
    if ops != [] {
      AllDoneNodes(ops[1..], replies[1..], xs[1..]);
      assert xs == [xs[0]] + xs[1..];
    }
  }

  /** AddCoinbaseNode: an empty subtree then holds the one node that AddNode refuses as
      misuse, of no fee and size; any other subtree is left as it is. */
  lemma {:induction false} CoinbaseOutcome(hs: Hasher<Hash>, s: State)
    ensures var (t, r) := Apply(hs, s, AddCoinbaseNode);
      && (r == Done <==> s.nodes == []) && (r != Done ==> r == Failed(SubtreeNotEmpty) && t == s)
      && (r == Done ==>
            && |t.nodes| == 1 && t.fees == 0 == t.nodes[0].fee && t.sizeInBytes == 0 == t.nodes[0].sizeInBytes
            && (forall k :: 0 <= k < 32 ==> t.nodes[0].hash[k] == 0xFF)
            && t.conflicting == s.conflicting
            && (forall u: State :: |u.nodes| < u.treeSize ==>
                  Apply(hs, u, AddNode(t.nodes[0])).1 == Failed(CoinbasePlaceholderMisuse)))
  {
  }

  // ----- removing -----

  /** The nodes before the position stay, those behind it move down by one, in order. */
  lemma {:induction false} RemoveByPosition(hs: Hasher<Hash>, s: State, i: nat)
    ensures var (t, r) := Apply(hs, s, RemoveNodeAtIndex(i));
      if i < |s.nodes| then
        r == Done && IsWithout(t.nodes, s.nodes, i) && t.conflicting == s.conflicting
      else r == Failed(IndexOutOfRange) && t == s
  {
  }

  lemma {:induction false} SumUndone(a: u64, x: u64)
    ensures ((a + x) % TWO_64 - x) % TWO_64 == a
  {
    SubWraps(a, x);
  }

  /** Removing what was added last undoes the addition. */
  lemma {:induction false} RemoveUndoesAdd(hs: Hasher<Hash>, s: State, op: Op)
    requires IsAdd(op) && Apply(hs, s, op).1 == Done
    ensures var t := Apply(hs, Apply(hs, s, op).0, RemoveNodeAtIndex(|s.nodes|)).0;
      && t.nodes == s.nodes && t.fees == s.fees && t.sizeInBytes == s.sizeInBytes
      && t.conflicting == s.conflicting && t.treeSize == s.treeSize
  {
    var added := Apply(hs, s, op).0;
    AddOutcome(hs, s, op);
    RemoveByPosition(hs, added, |s.nodes|);
    SumUndone(s.fees, op.node.fee);
    SumUndone(s.sizeInBytes, op.node.sizeInBytes);
  }

  // ----- replacing the first node -----

  /** The given node stands first, the others where they were; the fees stay, the size is
      added. Of at most one node the new root is the given hash. */
  lemma {:induction false} ReplaceByPosition(hs: Hasher<Hash>, s: State, node: Node)
    ensures var (t, r) := Apply(hs, s, ReplaceRootNode(node));
      && |t.nodes| == (if |s.nodes| == 0 then 1 else |s.nodes|) && t.nodes[0] == node
      && (forall k :: 1 <= k < |s.nodes| ==> t.nodes[k] == s.nodes[k])
      && t.fees == s.fees && t.sizeInBytes == (s.sizeInBytes + node.sizeInBytes) % TWO_64
      && t.conflicting == s.conflicting && t.treeSize == s.treeSize
    ensures |s.nodes| <= 1 ==> Apply(hs, s, ReplaceRootNode(node)).1 == Root(Some(node.hash))
  {
    var t := Apply(hs, s, ReplaceRootNode(node)).0;
    assert Hashes(t.nodes)[0] == node.hash;
  }

  /** Of several nodes it is the canonical root of the hashes with the first replaced. */
  lemma {:induction false} ReplaceAnswersRoot(hs: Hasher<Hash>, s: State, node: Node, leaves: seq<Hash>)
    requires |s.nodes| > 0 && |leaves| == |s.nodes| && Proper(hs, leaves)
    requires leaves[0] == node.hash && forall k :: 1 <= k < |leaves| ==> leaves[k] == s.nodes[k].hash
    ensures Apply(hs, s, ReplaceRootNode(node)).1 == Root(Some(Canonical.Root(hs, leaves)))
  {
    assert Hashes(Replaced(s, node).nodes) == leaves;
    StoreRootIsRoot(hs, leaves);
  }

  // ----- conflicting hashes -----

  /** A hash is recorded exactly when a node has it; nothing else changes. */
  lemma {:induction false} ConflictingOutcome(hs: Hasher<Hash>, s: State, h: Hash)
    ensures var (t, r) := Apply(hs, s, AddConflictingNode(h));
      && (r == Done <==> h in Hashes(s.nodes))
      && (r != Done ==> r == Failed(ConflictingNodeNotInSubtree))
      && (forall x :: x in t.conflicting <==> x in s.conflicting || (x == h && h in Hashes(s.nodes)))
      && s.conflicting <= t.conflicting && |t.conflicting| <= |s.conflicting| + 1
      && (h in s.conflicting ==> t == s)
      && t == s.(conflicting := t.conflicting)
  {
    if h in Hashes(s.nodes) {
      var i :| 0 <= i < |s.nodes| && Hashes(s.nodes)[i] == h;
      assert s.nodes[i].hash == h;
    }
    if HasHash(s.nodes, h) {
      var i :| 0 <= i < |s.nodes| && s.nodes[i].hash == h;
      assert Hashes(s.nodes)[i] == h;
    }
  }

  /** Call `i` of the run recorded `x`. */
  ghost predicate Recorded(ops: seq<Op>, replies: seq<Reply>, i: nat, x: Hash) {
    i < |ops| && i < |replies| && ops[i] == AddConflictingNode(x) && replies[i] == Done
  }

  ghost predicate SomeRecorded(ops: seq<Op>, replies: seq<Reply>, x: Hash) {
    exists i: nat :: Recorded(ops, replies, i, x)
  }

  /** Over any run, recorded are the old hashes and exactly those whose call was answered
      Done. */
  lemma {:induction false} RunRecordsConflicting(hs: Hasher<Hash>, s: State, ops: seq<Op>, x: Hash)
    ensures x in Run(hs, s, ops).conflicting
       <==> x in s.conflicting || SomeRecorded(ops, Replies(hs, s, ops), x)
    decreases |ops|
  {
    if ops == [] {
      assert !SomeRecorded(ops, Replies(hs, s, ops), x);
    } else {
      var t := Apply(hs, s, ops[0]).0;
      RunRecordsConflicting(hs, t, ops[1..], x);
      FirstRecords(hs, s, ops[0], x);
      RecordedLater(ops, Replies(hs, s, ops), Replies(hs, t, ops[1..]), x);
    }
  }

  lemma {:induction false} FirstRecords(hs: Hasher<Hash>, s: State, op: Op, x: Hash)
    ensures x in Apply(hs, s, op).0.conflicting
       <==> x in s.conflicting || (op == AddConflictingNode(x) && Apply(hs, s, op).1 == Done)
  {
    if op.AddConflictingNode? {
      ConflictingOutcome(hs, s, op.hash);
    }
  }

  lemma {:induction false} RecordedLater(ops: seq<Op>, replies: seq<Reply>, later: seq<Reply>, x: Hash)
    requires |ops| == |replies| > 0 && later == replies[1..]
    ensures SomeRecorded(ops, replies, x)
       <==> (ops[0] == AddConflictingNode(x) && replies[0] == Done) || SomeRecorded(ops[1..], later, x)
  {
    if SomeRecorded(ops, replies, x) {
      var i: nat :| Recorded(ops, replies, i, x);
      if i > 0 {
        assert Recorded(ops[1..], later, i - 1, x);
      }
    }
    if ops[0] == AddConflictingNode(x) && replies[0] == Done {
      assert Recorded(ops, replies, 0, x);
    }
    if SomeRecorded(ops[1..], later, x) {
      var i: nat :| Recorded(ops[1..], later, i, x);
      assert Recorded(ops, replies, i + 1, x);
    }
  }

  // ----- asking -----

  /** Questions leave everything but the two caches as it is. A copy has no index. */
  lemma {:induction false} QuestionsKeepContent(hs: Hasher<Hash>, s: State, op: Op)
    requires op.RootHash? || op.NodeIndex? || op.Duplicate?
    ensures var t := Apply(hs, s, op).0;
      && t == s.(root := t.root, index := t.index)
      && (op.RootHash? ==> t.index == s.index) && (!op.RootHash? ==> t.root == s.root)
      && (op.NodeIndex? && s.index.Some? ==> t.index == s.index)
  {
  }

  /** RootHash answers the canonical root of the nodes, when what is cached is right. */
  lemma {:induction false} RootHashAnswersRoot(hs: Hasher<Hash>, s: State)
    requires RootCoherent(hs, s) && Proper(hs, Hashes(s.nodes))
    ensures Apply(hs, s, RootHash).1
         == Root(if |s.nodes| > 0 then Some(Canonical.Root(hs, Hashes(s.nodes))) else None)
  {
    if |s.nodes| > 0 {
      StoreRootIsRoot(hs, Hashes(s.nodes));
    }
  }
}
